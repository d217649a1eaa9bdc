/**
  The question views and the question iterator of dnsparse/src/question.rs.
  A `Question` is a buffer plus the offsets `[start, end)` of one record; the
  iterator `Questions` yields `question_count` of them back to back.

  The source's `assert!` on a failed scan aborts the program; here it is the
  explicit outcome `Abort` of a step, after which nothing more is produced.
 */
module QuestionViews {
  import opened Wrappers
  import opened Wire
  import opened Scanner
  import opened Record
  import opened Names

  /** `Question`: `buf[start..end]` is one record (name, type, class). */
  datatype Question = Question(buf: seq<byte>, start: nat, end: nat)

  /** What every view the iterator creates satisfies: `[start, end)` is exactly what the scanner steps over. */
  predicate IsView(q: Question)
  {
    ReadQuestion(q.buf, q.start) == Some(q.end)
  }

  /** `Question::name`: the name begins at the record's first byte. */
  function Name(q: Question): QuestionName
  {
    QuestionName(q.buf, q.start)
  }

  /** `Question::kind`: the big-endian type code in the first two of the last four bytes. */
  function Kind(q: Question): (k: u16)
    requires IsView(q)
    ensures U16Bytes(k) == q.buf[q.end - 4..q.end - 2]
  {
    BigEndianBytesRoundTrip(q.buf[q.end - 4], q.buf[q.end - 3]);
    BigEndian16(q.buf[q.end - 4], q.buf[q.end - 3])
  }

  /** `Question::class`: the big-endian class code in the last two bytes. */
  function Class(q: Question): (c: u16)
    requires IsView(q)
    ensures U16Bytes(c) == q.buf[q.end - 2..q.end]
  {
    BigEndianBytesRoundTrip(q.buf[q.end - 2], q.buf[q.end - 1]);
    BigEndian16(q.buf[q.end - 2], q.buf[q.end - 1])
  }

  /** `Question::as_bytes`: the verbatim record. */
  function AsBytes(q: Question): (bs: seq<byte>)
    requires IsView(q)
    ensures |bs| == q.end - q.start >= 1 + TailLen
  {
    q.buf[q.start..q.end]
  }

  /** The bytes of a view are a record on their own: scanning them alone consumes all of them. */
  lemma AsBytesSelfContained(q: Question)
    requires IsView(q)
    ensures ReadQuestion(AsBytes(q), 0) == Some(|AsBytes(q)|)
  {
    var r := ScannedRecordIsEncoding(q.buf, q.start);
    ScanEncodedRecord([], r, []);
    assert [] + EncodeRecord(r) + [] == AsBytes(q);
  }

  /** Where the type and class bytes of an encoded record sit in the buffer. */
  lemma EncodedTail(buf: seq<byte>, i: nat, r: QuestionRecord)
    requires At(buf, i, EncodeRecord(r))
    ensures |EncodeRecord(r)| >= 4 && i + |EncodeRecord(r)| <= |buf|
    ensures buf[i + |EncodeRecord(r)| - 4..i + |EncodeRecord(r)| - 2] == U16Bytes(r.kind)
    ensures buf[i + |EncodeRecord(r)| - 2..i + |EncodeRecord(r)|] == U16Bytes(r.qclass)
  {
    var name := EncodeName(r.labels, r.terminal);
    var e := i + |EncodeRecord(r)|;
    assert EncodeRecord(r) == name + U16Bytes(r.kind) + U16Bytes(r.qclass);
    assert |EncodeRecord(r)| == |name| + 4;
    AtSlice(buf, i, EncodeRecord(r));
    assert buf[i..e] == EncodeRecord(r);
    assert e - 4 == i + |name|;
    var kindBytes, recordKind := buf[i + |name|..i + |name| + 2], buf[i..e][|name|..|name| + 2];
    forall k | 0 <= k < 2
      ensures kindBytes[k] == recordKind[k]
    {
      assert buf[i..e][|name| + k] == buf[i + |name| + k];
    }
    assert kindBytes == recordKind;
    assert buf[i + |name| + 2..e] == buf[i..e][|name| + 2..];
  }

  /** A view over an encoded record gives back the record's bytes, type and class. */
  lemma ViewOfEncodedRecord(buf: seq<byte>, i: nat, r: QuestionRecord)
    requires ValidRecord(r) && At(buf, i, EncodeRecord(r))
    ensures IsView(Question(buf, i, i + |EncodeRecord(r)|))
    ensures AsBytes(Question(buf, i, i + |EncodeRecord(r)|)) == EncodeRecord(r)
    ensures Kind(Question(buf, i, i + |EncodeRecord(r)|)) == r.kind
    ensures Class(Question(buf, i, i + |EncodeRecord(r)|)) == r.qclass
  {
    var e := i + |EncodeRecord(r)|;
    ScanRecordAt(buf, i, r);
    AtSlice(buf, i, EncodeRecord(r));
    EncodedTail(buf, i, r);
    var q := Question(buf, i, e);
    BigEndianRoundTrip(r.kind);
    BigEndianRoundTrip(r.qclass);
    assert Kind(q) == BigEndian16(U16Bytes(r.kind)[0], U16Bytes(r.kind)[1]);
    assert Class(q) == BigEndian16(U16Bytes(r.qclass)[0], U16Bytes(r.qclass)[1]);
  }

  /** The name of a view over a pointer-free encoded record resolves, without jumps, to the record's label texts. */
  lemma NameOfEncodedRecord(buf: seq<byte>, i: nat, r: QuestionRecord, fuel: nat)
    requires ValidRecord(r) && r.terminal.Root? && At(buf, i, EncodeRecord(r))
    ensures var n := Name(Question(buf, i, i + |EncodeRecord(r)|));
      Labels(n.buf, n.start, fuel) == Success(Texts(r.labels))
  {
    var name := EncodeName(r.labels, r.terminal);
    assert EncodeRecord(r) == name + (U16Bytes(r.kind) + U16Bytes(r.qclass));
    AtSplit(buf, i, name, U16Bytes(r.kind) + U16Bytes(r.qclass));
    ResolveEncodedName(buf, i, r.labels, r.terminal.descriptor, fuel);
  }

  /** `Questions`: how many questions to yield, how many were yielded, and the cursor. */
  datatype Questions = Questions(questionCount: nat, currentQuestion: nat, buf: seq<byte>, bufI: nat)

  /** The outcome of `next`: an item (or `None`) with the new state, or the abort of a failed `assert!`. */
  datatype Step = Step(item: Option<Question>, after: Questions) | Abort

  /** `Questions::next`. */
  function Next(it: Questions): (s: Step)
    ensures it.currentQuestion >= it.questionCount ==> s == Step(None, it)
    ensures s.Abort? <==> it.currentQuestion < it.questionCount && ReadQuestion(it.buf, it.bufI).None?
    ensures it.currentQuestion < it.questionCount && ReadQuestion(it.buf, it.bufI).Some? ==> s.Step? && s.item.Some?
    ensures s.Step? && s.item.Some? ==>
      && it.currentQuestion < it.questionCount
      && s.item.value.buf == it.buf
      && s.item.value.start == it.bufI
      && IsView(s.item.value)
      && s.item.value.start < s.item.value.end <= |it.buf|
      && s.after == it.(currentQuestion := it.currentQuestion + 1, bufI := s.item.value.end)
  {
    if it.currentQuestion >= it.questionCount then
      Step(None, it)
    else
      match ReadQuestion(it.buf, it.bufI)
      case None => Abort
      case Some(i) =>
        var question := Question(it.buf, it.bufI, i);
        Step(Some(question), it.(currentQuestion := it.currentQuestion + 1, bufI := i))
  }

  /** `qs` are views into `buf` laid back to back from offset `from`, with no gap or overlap. */
  predicate Tiles(qs: seq<Question>, buf: seq<byte>, from: nat)
  {
    && (forall k :: 0 <= k < |qs| ==> qs[k].buf == buf && IsView(qs[k]))
    && (|qs| > 0 ==> qs[0].start == from)
    && (forall k :: 0 < k < |qs| ==> qs[k].start == qs[k - 1].end)
  }

  /** Remaining count of questions the iterator may still yield. */
  function Remaining(it: Questions): nat
  {
    if it.currentQuestion < it.questionCount then it.questionCount - it.currentQuestion else 0
  }

  /**
    Run the iterator until `next` yields `None`: the questions in order, or
    `None` when a failed scan would abort. It yields exactly the remaining
    count, tiling the buffer from the cursor.
   */
  function Collect(it: Questions): (r: Option<seq<Question>>)
    ensures r.Some? ==> |r.value| == Remaining(it)
    decreases Remaining(it)
  {
    match Next(it)
    case Abort => None
    case Step(None, _) => Some([])
    case Step(Some(q), after) =>
      match Collect(after)
      case None => None
      case Some(qs) => Some([q] + qs)
  }

  /** The questions `Collect` yields are views laid back to back from the cursor. */
  lemma {:induction false} CollectTiles(it: Questions)
    requires Collect(it).Some?
    ensures Tiles(Collect(it).value, it.buf, it.bufI)
    decreases Remaining(it)
  {
    match Next(it)
    case Step(None, _) =>
    case Step(Some(q), after) =>
      CollectTiles(after);
      TilesCons(q, Collect(after).value, it.buf, it.bufI);
  }

  lemma TilesCons(q: Question, qs: seq<Question>, buf: seq<byte>, from: nat)
    requires q.buf == buf && IsView(q) && q.start == from
    requires Tiles(qs, buf, q.end)
    ensures Tiles([q] + qs, buf, from)
  {
    var all := [q] + qs;
    forall k | 0 < k < |all|
      ensures all[k].start == all[k - 1].end
    {
      if k > 1 {
        assert all[k] == qs[k - 1] && all[k - 1] == qs[k - 2];
      }
    }
    forall k | 0 <= k < |all|
      ensures all[k].buf == buf && IsView(all[k])
    {
      if k > 0 {
        assert all[k] == qs[k - 1];
      }
    }
  }

  /** The records laid back to back. */
  function EncodeAll(rs: seq<QuestionRecord>): seq<byte>
  {
    if |rs| == 0 then [] else EncodeRecord(rs[0]) + EncodeAll(rs[1..])
  }

  /** One step of the iterator over an encoded record yields the view of exactly that record. */
  lemma NextOverEncodedRecord(it: Questions, r: QuestionRecord)
    requires ValidRecord(r) && it.currentQuestion < it.questionCount
    requires At(it.buf, it.bufI, EncodeRecord(r))
    ensures var q := Question(it.buf, it.bufI, it.bufI + |EncodeRecord(r)|);
      && Next(it) == Step(Some(q), it.(currentQuestion := it.currentQuestion + 1, bufI := q.end))
      && IsView(q) && AsBytes(q) == EncodeRecord(r) && Kind(q) == r.kind && Class(q) == r.qclass
  {
    ViewOfEncodedRecord(it.buf, it.bufI, r);
  }

  /** Each view gives back the bytes, type and class of the record at the same position. */
  predicate Yields(qs: seq<Question>, rs: seq<QuestionRecord>)
  {
    && |qs| == |rs|
    && forall k :: 0 <= k < |rs| ==>
      && IsView(qs[k])
      && AsBytes(qs[k]) == EncodeRecord(rs[k])
      && Kind(qs[k]) == rs[k].kind
      && Class(qs[k]) == rs[k].qclass
  }

  lemma YieldsCons(q: Question, qs: seq<Question>, rs: seq<QuestionRecord>)
    requires |rs| > 0
    requires IsView(q) && AsBytes(q) == EncodeRecord(rs[0]) && Kind(q) == rs[0].kind && Class(q) == rs[0].qclass
    requires Yields(qs, rs[1..])
    ensures Yields([q] + qs, rs)
  {
    var all := [q] + qs;
    forall k | 0 <= k < |rs|
      ensures IsView(all[k]) && AsBytes(all[k]) == EncodeRecord(rs[k])
      ensures Kind(all[k]) == rs[k].kind && Class(all[k]) == rs[k].qclass
    {
      if k > 0 {
        assert all[k] == qs[k - 1];
        assert rs[k] == rs[1..][k - 1];
      }
    }
  }

  /** `Collect` over a state whose next step yields `q` is `q` followed by the rest. */
  lemma CollectStep(it: Questions, q: Question, after: Questions)
    requires Next(it) == Step(Some(q), after)
    requires Collect(after).Some?
    ensures Collect(it) == Some([q] + Collect(after).value)
  {
  }

  /** A section of records is its first record, then the section of the rest. */
  lemma AtFirstRecord(buf: seq<byte>, i: nat, rs: seq<QuestionRecord>)
    requires |rs| > 0 && At(buf, i, EncodeAll(rs))
    ensures At(buf, i, EncodeRecord(rs[0])) && At(buf, i + |EncodeRecord(rs[0])|, EncodeAll(rs[1..]))
  {
    assert EncodeAll(rs) == EncodeRecord(rs[0]) + EncodeAll(rs[1..]);
    AtSplit(buf, i, EncodeRecord(rs[0]), EncodeAll(rs[1..]));
  }

  /** A yielded view of the first record in front of a run that yields the other records in full. */
  lemma CollectOneMore(it: Questions, q: Question, after: Questions, rs: seq<QuestionRecord>)
    requires |rs| > 0 && Next(it) == Step(Some(q), after)
    requires IsView(q) && AsBytes(q) == EncodeRecord(rs[0]) && Kind(q) == rs[0].kind && Class(q) == rs[0].qclass
    requires Collect(after).Some? && Yields(Collect(after).value, rs[1..])
    ensures Collect(it).Some? && Yields(Collect(it).value, rs)
  {
    CollectStep(it, q, after);
    YieldsCons(q, Collect(after).value, rs);
  }

  /**
    Round trip over a question section: an iterator over the encodings of
    well-formed records, asked for exactly that many, yields one view per
    record, in order, each giving back the record's bytes, type and class.
   */
  lemma {:induction false} CollectEncodedFrom(it: Questions, rs: seq<QuestionRecord>)
    requires forall k :: 0 <= k < |rs| ==> ValidRecord(rs[k])
    requires it.currentQuestion + |rs| == it.questionCount
    requires At(it.buf, it.bufI, EncodeAll(rs))
    ensures Collect(it).Some? && Yields(Collect(it).value, rs)
    decreases |rs|
  {
    if |rs| == 0 {
      assert Next(it) == Step(None, it);
    } else {
      var r := rs[0];
      AtFirstRecord(it.buf, it.bufI, rs);
      NextOverEncodedRecord(it, r);
      var q := Question(it.buf, it.bufI, it.bufI + |EncodeRecord(r)|);
      var after := it.(currentQuestion := it.currentQuestion + 1, bufI := q.end);
      CollectEncodedFrom(after, rs[1..]);
      CollectOneMore(it, q, after, rs);
    }
  }

  /** The same round trip for a question section starting after arbitrary header bytes `pre`. */
  lemma CollectEncoded(pre: seq<byte>, rs: seq<QuestionRecord>, post: seq<byte>)
    requires forall k :: 0 <= k < |rs| ==> ValidRecord(rs[k])
    ensures Collect(Questions(|rs|, 0, pre + EncodeAll(rs) + post, |pre|)).Some?
    ensures Yields(Collect(Questions(|rs|, 0, pre + EncodeAll(rs) + post, |pre|)).value, rs)
  {
    AtInContext(pre, EncodeAll(rs), post);
    CollectEncodedFrom(Questions(|rs|, 0, pre + EncodeAll(rs) + post, |pre|), rs);
  }
}
