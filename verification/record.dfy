/**
  The on-wire layout of one question record (section 4.1.2 of RFC 1035) as
  an encoder. It is the independent description the scanner is checked
  against: the scanner accepts exactly the buffers that start with the
  encoding of a well-formed record, and stops exactly at its end.

  A label keeps its raw descriptor byte because the scanner only looks at the
  tag bits to spot `11` (a pointer); the reserved tags `01` and `10` are read
  as lengths, so a descriptor such as 0x41 still introduces a 1-byte label.
 */
module Record {
  import opened Wrappers
  import opened Wire
  import opened Scanner

  /** One length-prefixed label: its descriptor byte and its text. */
  datatype Label = Label(descriptor: byte, text: seq<byte>)

  /** How a name ends: a zero-length label, or a compression pointer. */
  datatype Terminal = Root(descriptor: byte) | Pointer(hi: byte, lo: byte)

  /** A question record: an encoded name, then the type and class codes. */
  datatype QuestionRecord = QuestionRecord(labels: seq<Label>, terminal: Terminal, kind: u16, qclass: u16)

  predicate ValidLabel(l: Label)
  {
    !IsPointer(l.descriptor) && MaskLen(l.descriptor) == |l.text| && |l.text| > 0
  }

  predicate ValidLabels(ls: seq<Label>)
  {
    forall k :: 0 <= k < |ls| ==> ValidLabel(ls[k])
  }

  predicate ValidTerminal(t: Terminal)
  {
    match t
    case Root(d) => !IsPointer(d) && MaskLen(d) == 0
    case Pointer(hi, _) => IsPointer(hi)
  }

  predicate ValidRecord(r: QuestionRecord)
  {
    ValidLabels(r.labels) && ValidTerminal(r.terminal)
  }

  function EncodeLabels(ls: seq<Label>): (bs: seq<byte>)
  {
    if |ls| == 0 then [] else [ls[0].descriptor] + ls[0].text + EncodeLabels(ls[1..])
  }

  function EncodeTerminal(t: Terminal): (bs: seq<byte>)
    ensures |bs| == if t.Root? then 1 else 2
  {
    match t
    case Root(d) => [d]
    case Pointer(hi, lo) => [hi, lo]
  }

  function EncodeName(ls: seq<Label>, t: Terminal): (bs: seq<byte>)
  {
    EncodeLabels(ls) + EncodeTerminal(t)
  }

  /** The two big-endian 16-bit fields that follow a name: the type code, then the class code. */
  function EncodeTail(kind: u16, qclass: u16): (bs: seq<byte>)
  {
    U16Bytes(kind) + U16Bytes(qclass)
  }

  function EncodeRecord(r: QuestionRecord): (bs: seq<byte>)
  {
    EncodeName(r.labels, r.terminal) + EncodeTail(r.kind, r.qclass)
  }

  /** The label texts of a name in order, as the name resolver yields them. */
  function Texts(ls: seq<Label>): (ts: seq<seq<byte>>)
    ensures |ts| == |ls|
    ensures forall k :: 0 <= k < |ls| ==> ts[k] == ls[k].text
  {
    if |ls| == 0 then [] else [ls[0].text] + Texts(ls[1..])
  }

  lemma EncodeNameCons(l: Label, rest: seq<Label>, t: Terminal)
    ensures EncodeName([l] + rest, t) == [l.descriptor] + l.text + EncodeName(rest, t)
    ensures ValidLabel(l) && ValidLabels(rest) ==> ValidLabels([l] + rest)
  {
    assert ([l] + rest)[1..] == rest;
  }

  lemma ValidLabelsAppend(ls: seq<Label>, ms: seq<Label>)
    requires ValidLabels(ls) && ValidLabels(ms)
    ensures ValidLabels(ls + ms)
  {
    forall k | 0 <= k < |ls + ms|
      ensures ValidLabel((ls + ms)[k])
    {
      if k < |ls| {
        assert (ls + ms)[k] == ls[k];
      } else {
        assert (ls + ms)[k] == ms[k - |ls|];
      }
    }
  }

  /** `buf` holds `w` at offset `i`, byte by byte. */
  predicate At(buf: seq<byte>, i: nat, w: seq<byte>)
    decreases |w|
  {
    if |w| == 0 then i <= |buf| else i < |buf| && buf[i] == w[0] && At(buf, i + 1, w[1..])
  }

  /** `At` is the slice equality it abbreviates. */
  lemma {:induction false} AtSlice(buf: seq<byte>, i: nat, w: seq<byte>)
    ensures At(buf, i, w) <==> i + |w| <= |buf| && buf[i..i + |w|] == w
    decreases |w|
  {
    if |w| > 0 {
      AtSlice(buf, i + 1, w[1..]);
      if i + |w| <= |buf| {
        assert buf[i..i + |w|] == [buf[i]] + buf[i + 1..i + |w|];
        assert w == [w[0]] + w[1..];
      }
    }
  }

  lemma {:induction false} AtSplit(buf: seq<byte>, i: nat, a: seq<byte>, b: seq<byte>)
    requires At(buf, i, a + b)
    ensures At(buf, i, a) && At(buf, i + |a|, b)
    decreases |a|
  {
    if |a| == 0 {
      assert a + b == b;
      AtSlice(buf, i, b);
    } else {
      assert (a + b)[1..] == a[1..] + b;
      AtSplit(buf, i + 1, a[1..], b);
    }
  }

  lemma {:induction false} AtJoin(buf: seq<byte>, i: nat, a: seq<byte>, b: seq<byte>)
    requires At(buf, i, a) && At(buf, i + |a|, b)
    ensures At(buf, i, a + b)
    decreases |a|
  {
    if |a| == 0 {
      assert a + b == b;
    } else {
      assert (a + b)[1..] == a[1..] + b;
      AtJoin(buf, i + 1, a[1..], b);
    }
  }

  /** A buffer holds its own slices. */
  lemma AtSelf(buf: seq<byte>, i: nat, j: nat)
    requires i <= j <= |buf|
    ensures At(buf, i, buf[i..j])
  {
    AtSlice(buf, i, buf[i..j]);
  }

  lemma AtInContext(pre: seq<byte>, w: seq<byte>, post: seq<byte>)
    ensures At(pre + w + post, |pre|, w)
  {
    assert (pre + w + post)[|pre|..|pre| + |w|] == w;
    AtSlice(pre + w + post, |pre|, w);
  }

  /** An encoded name with labels is its first label, then the encoding of the rest. */
  lemma AtFirstLabel(buf: seq<byte>, i: nat, ls: seq<Label>, t: Terminal)
    requires |ls| > 0 && ValidLabels(ls) && At(buf, i, EncodeName(ls, t))
    ensures ValidLabel(ls[0]) && ValidLabels(ls[1..])
    ensures At(buf, i, [ls[0].descriptor] + ls[0].text)
    ensures At(buf, i + 1 + |ls[0].text|, EncodeName(ls[1..], t))
  {
    EncodeNameCons(ls[0], ls[1..], t);
    assert [ls[0]] + ls[1..] == ls;
    AtSplit(buf, i, [ls[0].descriptor] + ls[0].text, EncodeName(ls[1..], t));
  }

  /**
    Scanning from the first byte of an encoded name followed by a 4-byte tail
    steps over exactly the name and the tail.
   */
  lemma {:induction false} ScanEncodedName(buf: seq<byte>, i: nat, ls: seq<Label>, t: Terminal)
    requires ValidLabels(ls) && ValidTerminal(t)
    requires At(buf, i, EncodeName(ls, t)) && i + |EncodeName(ls, t)| + TailLen <= |buf|
    ensures ReadQuestion(buf, i) == Some(i + |EncodeName(ls, t)| + TailLen)
    decreases |ls|
  {
    if |ls| == 0 {
      assert EncodeName(ls, t) == EncodeTerminal(t);
      ReadLabelAtTerminal(buf, i, t);
    } else {
      AtFirstLabel(buf, i, ls, t);
      ReadLabelAtLabel(buf, i, ls[0]);
      ScanEncodedName(buf, i + 1 + |ls[0].text|, ls[1..], t);
    }
  }

  /** `read_label` steps over an encoded label and reports that the name goes on. */
  lemma ReadLabelAtLabel(buf: seq<byte>, i: nat, l: Label)
    requires ValidLabel(l) && At(buf, i, [l.descriptor] + l.text)
    ensures ReadLabel(buf, i) == Some(LabelStep(i + 1 + |l.text|, false))
  {
    assert buf[i] == ([l.descriptor] + l.text)[0];
    DescriptorClassification(l.descriptor);
  }

  /** `read_label` steps over an encoded terminal, followed by at least one byte, and reports the end of the name. */
  lemma ReadLabelAtTerminal(buf: seq<byte>, i: nat, t: Terminal)
    requires ValidTerminal(t) && At(buf, i, EncodeTerminal(t)) && i + |EncodeTerminal(t)| < |buf|
    ensures ReadLabel(buf, i) == Some(LabelStep(i + |EncodeTerminal(t)|, true))
  {
    assert buf[i] == EncodeTerminal(t)[0];
    match t
    case Root(d) => DescriptorClassification(d);
    case Pointer(hi, _) => DescriptorClassification(hi);
  }

  /**
    `read_query_class_and_kind` succeeds exactly where a type and a class
    field are encoded, and then steps over exactly those two fields.
   */
  lemma ReadTailIffFields(buf: seq<byte>, i: nat)
    ensures ReadQueryClassAndKind(buf, i).Some? <==> exists k: u16, c: u16 :: At(buf, i, EncodeTail(k, c))
    ensures forall k: u16, c: u16 :: At(buf, i, EncodeTail(k, c)) ==>
      ReadQueryClassAndKind(buf, i) == Some(i + |EncodeTail(k, c)|)
  {
    forall k: u16, c: u16 | At(buf, i, EncodeTail(k, c))
      ensures ReadQueryClassAndKind(buf, i) == Some(i + |EncodeTail(k, c)|)
    {
      AtSlice(buf, i, EncodeTail(k, c));
    }
    if i + TailLen <= |buf| {
      var k, c := BigEndian16(buf[i], buf[i + 1]), BigEndian16(buf[i + 2], buf[i + 3]);
      BigEndianBytesRoundTrip(buf[i], buf[i + 1]);
      BigEndianBytesRoundTrip(buf[i + 2], buf[i + 3]);
      assert EncodeTail(k, c) == buf[i..i + 4];
      AtSelf(buf, i, i + 4);
    }
  }

  /** Round trip, encoder then scanner: a well-formed record is scanned to exactly its end. */
  lemma ScanRecordAt(buf: seq<byte>, i: nat, r: QuestionRecord)
    requires ValidRecord(r) && At(buf, i, EncodeRecord(r))
    ensures ReadQuestion(buf, i) == Some(i + |EncodeRecord(r)|)
  {
    var name := EncodeName(r.labels, r.terminal);
    assert EncodeRecord(r) == name + (U16Bytes(r.kind) + U16Bytes(r.qclass));
    AtSlice(buf, i, EncodeRecord(r));
    AtSplit(buf, i, name, U16Bytes(r.kind) + U16Bytes(r.qclass));
    ScanEncodedName(buf, i, r.labels, r.terminal);
  }

  /** The same round trip with the record embedded in arbitrary surrounding bytes. */
  lemma ScanEncodedRecord(pre: seq<byte>, r: QuestionRecord, post: seq<byte>)
    requires ValidRecord(r)
    ensures ReadQuestion(pre + EncodeRecord(r) + post, |pre|) == Some(|pre| + |EncodeRecord(r)|)
  {
    AtInContext(pre, EncodeRecord(r), post);
    ScanRecordAt(pre + EncodeRecord(r) + post, |pre|, r);
  }

  /**
    Round trip, scanner then encoder: whatever the scanner steps over from `i`
    is the encoding of a well-formed name followed by the 4-byte tail.
   */
  lemma {:induction false} ScannedNameIsEncoding(buf: seq<byte>, i: nat) returns (ls: seq<Label>, t: Terminal)
    requires ReadQuestion(buf, i).Some?
    ensures ValidLabels(ls) && ValidTerminal(t)
    ensures At(buf, i, EncodeName(ls, t))
    ensures ReadQuestion(buf, i).value == i + |EncodeName(ls, t)| + TailLen
    decreases |buf| - i
  {
    var step := ReadLabel(buf, i).value;
    if IsPointer(buf[i]) {
      assert ReadQuestion(buf, i) == ReadQueryClassAndKind(buf, i + 2);
      ls, t := [], Pointer(buf[i], buf[i + 1]);
      assert EncodeName(ls, t) == [buf[i], buf[i + 1]] == buf[i..i + 2];
      AtSelf(buf, i, i + 2);
    } else if MaskLen(buf[i]) == 0 {
      assert ReadQuestion(buf, i) == ReadQueryClassAndKind(buf, i + 1);
      ls, t := [], Root(buf[i]);
      assert EncodeName(ls, t) == [buf[i]] == buf[i..i + 1];
      AtSelf(buf, i, i + 1);
    } else {
      assert step == LabelStep(i + 1 + MaskLen(buf[i]), false);
      assert ReadQuestion(buf, i) == ReadQuestion(buf, step.next);
      var rest, t' := ScannedNameIsEncoding(buf, step.next);
      var l := Label(buf[i], buf[i + 1..step.next]);
      ls, t := [l] + rest, t';
      EncodeNameCons(l, rest, t);
      var head := [l.descriptor] + l.text;
      assert buf[i..step.next] == head;
      AtSelf(buf, i, step.next);
      AtJoin(buf, i, head, EncodeName(rest, t));
    }
  }

  /** The record the scanner stepped over, read back out of the buffer. */
  lemma ScannedRecordIsEncoding(buf: seq<byte>, i: nat) returns (r: QuestionRecord)
    requires ReadQuestion(buf, i).Some?
    ensures ValidRecord(r)
    ensures buf[i..ReadQuestion(buf, i).value] == EncodeRecord(r)
  {
    var ls, t := ScannedNameIsEncoding(buf, i);
    AtSlice(buf, i, EncodeName(ls, t));
    var e := ReadQuestion(buf, i).value;
    var n := |EncodeName(ls, t)|;
    r := QuestionRecord(ls, t, BigEndian16(buf[e - 4], buf[e - 3]), BigEndian16(buf[e - 2], buf[e - 1]));
    BigEndianBytesRoundTrip(buf[e - 4], buf[e - 3]);
    BigEndianBytesRoundTrip(buf[e - 2], buf[e - 1]);
    assert buf[i..e] == buf[i..i + n] + [buf[e - 4], buf[e - 3]] + [buf[e - 2], buf[e - 1]];
  }

  /**
    The scanner's acceptance, stated without it: it succeeds at `i` exactly
    when the bytes at `i` are the encoding of some well-formed record.
   */
  lemma ScanSucceedsIffRecord(buf: seq<byte>, i: nat)
    ensures ReadQuestion(buf, i).Some? <==> exists r :: ValidRecord(r) && At(buf, i, EncodeRecord(r))
  {
    if ReadQuestion(buf, i).Some? {
      var r := ScannedRecordIsEncoding(buf, i);
      AtSelf(buf, i, ReadQuestion(buf, i).value);
    }
    if exists r :: ValidRecord(r) && At(buf, i, EncodeRecord(r)) {
      var r :| ValidRecord(r) && At(buf, i, EncodeRecord(r));
      ScanRecordAt(buf, i, r);
    }
  }

  /** The reserved tag `01` is not rejected: descriptor 0x41 introduces a 1-byte label. */
  lemma ReservedTagReadAsLength()
    ensures ReadQuestion([0x41, 0x61, 0x00, 0x00, 0x01, 0x00, 0x01], 0) == Some(7)
    ensures ValidLabel(Label(0x41, [0x61]))
  {
  }
}
