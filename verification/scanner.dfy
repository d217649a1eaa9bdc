/**
  The question scanner of dnsparse/src/question.rs: it advances a cursor past
  one question record (an encoded name, then a 2-byte type and a 2-byte class)
  without following compression pointers. Rust's `&mut usize` cursor becomes
  the returned new offset; `None` stands for the source's `None`/`false`.
 */
module Scanner {
  import opened Wrappers
  import opened Wire

  /** Width of the fixed tail after the name: `size_of::<QueryClass>() + size_of::<QueryKind>()`. */
  const TailLen: nat := 4

  /** What `read_label` reports: the advanced cursor and whether the label ended the name. */
  datatype LabelStep = LabelStep(next: nat, last: bool)

  /** `read_label`: classify the descriptor at `i` and step over it. */
  function ReadLabel(buf: seq<byte>, i: nat): (r: Option<LabelStep>)
    ensures r.None? <==> i >= |buf| || (buf[i] >= 0xC0 && i + 2 >= |buf|)
    ensures r.Some? ==> r.value.next == if buf[i] >= 0xC0 then i + 2 else i + 1 + buf[i] % 64
    ensures r.Some? ==> (r.value.last <==> buf[i] >= 0xC0 || buf[i] % 64 == 0)
    ensures r.Some? ==> i < r.value.next <= i + 64
  {
    if i < |buf| then
      var pointerOrLen := buf[i];
      DescriptorClassification(pointerOrLen);
      if IsPointer(pointerOrLen) then
        if i + 1 + 1 < |buf| then Some(LabelStep(i + 2, true)) else None
      else
        var partLen := MaskLen(pointerOrLen);
        Some(LabelStep(i + 1 + partLen, partLen == 0))
    else
      None
  }

  /** `read_query_class_and_kind`: step over the 4-byte type/class tail if it fits. */
  function ReadQueryClassAndKind(buf: seq<byte>, i: nat): (r: Option<nat>)
    ensures r.Some? <==> i + TailLen <= |buf|
    ensures r.Some? ==> r.value == i + TailLen
  {
    if i + TailLen <= |buf| then Some(i + TailLen) else None
  }

  /**
    `read_question`: step over labels until a terminal one (a zero length or a
    pointer), then over the tail. On success the record spans `[i, end)`.
   */
  function ReadQuestion(buf: seq<byte>, i: nat): (r: Option<nat>)
    ensures r.Some? ==> i + 1 + TailLen <= r.value <= |buf|
    ensures r.Some? ==> i < |buf|
    decreases |buf| - i
  {
    match ReadLabel(buf, i)
    case None => None
    case Some(LabelStep(next, false)) => ReadQuestion(buf, next)
    case Some(LabelStep(next, true)) => ReadQueryClassAndKind(buf, next)
  }

  /** The scanning loop of `read_question`, written as the source writes it, with a mutable cursor. */
  method ScanQuestion(buf: seq<byte>, start: nat) returns (ok: bool, end: nat)
    ensures ok <==> ReadQuestion(buf, start).Some?
    ensures ok ==> end == ReadQuestion(buf, start).value && start + 1 + TailLen <= end <= |buf|
  {
    var i := start;
    while true
      invariant start <= i
      invariant ReadQuestion(buf, i) == ReadQuestion(buf, start)
      decreases |buf| - i
    {
      var step := ReadLabel(buf, i);
      if step.None? {
        return false, 0;
      }
      if step.value.last {
        var tail := ReadQueryClassAndKind(buf, step.value.next);
        if tail.None? {
          return false, 0;
        }
        return true, tail.value;
      }
      i := step.value.next;
    }
  }

  /**
    `read_label` with the pointer bound a reader of section 4.1.4 of RFC 1035
    would write: both pointer bytes present (`i + 2 <= len`) rather than `i + 2 < len`.
   */
  function ReadLabelExact(buf: seq<byte>, i: nat): (r: Option<LabelStep>)
    ensures r.None? <==> i >= |buf| || (IsPointer(buf[i]) && i + 2 > |buf|)
    ensures r.Some? ==> i < r.value.next
  {
    if i >= |buf| then None
    else if IsPointer(buf[i]) then
      if i + 2 <= |buf| then Some(LabelStep(i + 2, true)) else None
    else
      Some(LabelStep(i + 1 + MaskLen(buf[i]), MaskLen(buf[i]) == 0))
  }

  /** `read_question` driven by `ReadLabelExact`. */
  function ReadQuestionExact(buf: seq<byte>, i: nat): (r: Option<nat>)
    decreases |buf| - i
  {
    match ReadLabelExact(buf, i)
    case None => None
    case Some(LabelStep(next, false)) => ReadQuestionExact(buf, next)
    case Some(LabelStep(next, true)) => ReadQueryClassAndKind(buf, next)
  }

  /**
    The one-byte-too-strict pointer bound of `read_label` never changes what
    `read_question` returns: the only pointer it rejects that the exact bound
    accepts ends the buffer, leaving no room for the 4-byte tail.
   */
  lemma {:induction false} PointerBoundUnobservable(buf: seq<byte>, i: nat)
    ensures ReadQuestion(buf, i) == ReadQuestionExact(buf, i)
    decreases |buf| - i
  {
    match ReadLabel(buf, i)
    case None =>
    case Some(LabelStep(next, last)) =>
      if !last {
        PointerBoundUnobservable(buf, next);
      }
  }

  /** The rejected pointer: two bytes `C0 00` ending the buffer are not scanned as a pointer. */
  lemma PointerAtBufferEndRejected()
    ensures ReadLabel([0xC0, 0x00], 0).None?
    ensures ReadLabelExact([0xC0, 0x00], 0) == Some(LabelStep(2, true))
  {
  }
}
