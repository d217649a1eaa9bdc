/**
  The name resolver of dnsparse/src/question.rs: the `Display` and
  `PartialEq<&str>` traversals of a `QuestionName`, which walk the label chain
  and follow compression pointers (section 4.1.4 of RFC 1035).

  The source loops without bound and indexes the buffer unchecked. Here every
  traversal takes `fuel`, the number of pointer jumps it may make, and an
  out-of-range read is the explicit error `OutOfBounds` (a panic in the source).
  Running out of fuel is `JumpLimit`; on a pointer cycle the source never stops.
 */
module Names {
  import opened Wrappers
  import opened Wire
  import opened Record

  /** `QuestionName`: the buffer and the offset where the name's label chain begins. */
  datatype QuestionName = QuestionName(buf: seq<byte>, start: nat)

  datatype NameError = OutOfBounds | JumpLimit

  /** What a traversal finds at one offset of the label chain. */
  datatype Entry =
    | Missing          // `buf[i]`, or the second pointer byte `buf[i + 1]`, is out of range
    | Jump(target: nat) // a compression pointer: continue at `target`
    | End              // a zero length: the name is complete
    | Text(len: nat)   // a label of `len` bytes starting at `i + 1`, not yet bounds-checked

  /** The classification every traversal of the source applies at offset `i` (lines 46-57 and 82-93). */
  function EntryAt(buf: seq<byte>, i: nat): (e: Entry)
    ensures e.Text? ==> 1 <= e.len <= 63
  {
    if i >= |buf| then Missing
    else if IsPointer(buf[i]) then
      if i + 1 < |buf| then Jump(Target(buf[i], buf[i + 1])) else Missing
    else if MaskLen(buf[i]) == 0 then End
    else Text(MaskLen(buf[i]))
  }

  /** Put `prefix` in front of a successful result; pass a failure through. */
  function Prefix<T>(prefix: seq<T>, r: Result<seq<T>, NameError>): (r': Result<seq<T>, NameError>)
    ensures r'.Success? <==> r.Success?
    ensures r'.Success? ==> r'.value == prefix + r.value
    ensures r'.Failure? ==> r'.error == r.error
  {
    match r
    case Success(v) => Success(prefix + v)
    case Failure(e) => Failure(e)
  }

  /** The label text at a `Text` entry. */
  function LabelText(buf: seq<byte>, i: nat, len: nat): seq<byte>
    requires i + 1 + len <= |buf|
  {
    buf[i + 1..i + 1 + len]
  }

  /**
    The label chain from offset `i` as the resolver sees it: each label
    contributes its text, a zero length ends the chain, and a pointer
    continues the same chain at its target.
   */
  function Labels(buf: seq<byte>, i: nat, fuel: nat): (r: Result<seq<seq<byte>>, NameError>)
    ensures r.Success? ==> forall k :: 0 <= k < |r.value| ==> 1 <= |r.value[k]| <= 63
    decreases fuel, |buf| - i
  {
    match EntryAt(buf, i)
    case Missing => Failure(OutOfBounds)
    case Jump(t) => if fuel == 0 then Failure(JumpLimit) else Labels(buf, t, fuel - 1)
    case End => Success([])
    case Text(len) =>
      if i + 1 + len > |buf| then Failure(OutOfBounds)
      else Prefix([LabelText(buf, i, len)], Labels(buf, i + 1 + len, fuel))
  }

  /** Each label preceded by a `.`. */
  function Dotted(ls: seq<seq<byte>>): seq<byte>
  {
    if |ls| == 0 then [] else [Dot] + ls[0] + Dotted(ls[1..])
  }

  /** The dotted text form: the labels in order, separated by single dots, no trailing dot. */
  function Join(ls: seq<seq<byte>>): seq<byte>
  {
    if |ls| == 0 then [] else ls[0] + Dotted(ls[1..])
  }

  lemma JoinCons(l: seq<byte>, rest: seq<seq<byte>>)
    ensures Join([l] + rest) == l + Dotted(rest)
    ensures Dotted([l] + rest) == [Dot] + (l + Dotted(rest))
  {
    assert ([l] + rest)[1..] == rest;
  }

  /**
    `Display::fmt` as written: the separator is emitted whenever the cursor is
    not at the name's start, so after a pointer jump the first label gets one too.
   */
  function RenderAsWritten(buf: seq<byte>, start: nat, i: nat, fuel: nat): (r: Result<seq<byte>, NameError>)
    decreases fuel, |buf| - i
  {
    match EntryAt(buf, i)
    case Missing => Failure(OutOfBounds)
    case Jump(t) => if fuel == 0 then Failure(JumpLimit) else RenderAsWritten(buf, start, t, fuel - 1)
    case End => Success([])
    case Text(len) =>
      var sep := if i != start then [Dot] else [];
      if i + 1 + len > |buf| then Failure(OutOfBounds)
      else Prefix(sep + LabelText(buf, i, len), RenderAsWritten(buf, start, i + 1 + len, fuel))
  }

  /** `Display::fmt` with the separator emitted before every label but the first one. */
  function RenderFrom(buf: seq<byte>, i: nat, first: bool, fuel: nat): (r: Result<seq<byte>, NameError>)
    decreases fuel, |buf| - i
  {
    match EntryAt(buf, i)
    case Missing => Failure(OutOfBounds)
    case Jump(t) => if fuel == 0 then Failure(JumpLimit) else RenderFrom(buf, t, first, fuel - 1)
    case End => Success([])
    case Text(len) =>
      var sep := if first then [] else [Dot];
      if i + 1 + len > |buf| then Failure(OutOfBounds)
      else Prefix(sep + LabelText(buf, i, len), RenderFrom(buf, i + 1 + len, false, fuel))
  }

  function Render(n: QuestionName, fuel: nat): (r: Result<seq<byte>, NameError>)
  {
    RenderFrom(n.buf, n.start, true, fuel)
  }

  /**
    `PartialEq<&str>::eq` from label offset `i` and string offset `otherI`:
    a `.` is required before every label but the first, each label must match
    its slice of the string ignoring ASCII case, and the string must be used up
    when the zero-length label is reached. A short string answers `false`
    before the label bytes are read.
   */
  function EqFrom(buf: seq<byte>, i: nat, other: seq<byte>, otherI: nat, fuel: nat): (r: Result<bool, NameError>)
    requires otherI <= |other|
    decreases fuel, |buf| - i
  {
    match EntryAt(buf, i)
    case Missing => Failure(OutOfBounds)
    case Jump(t) => if fuel == 0 then Failure(JumpLimit) else EqFrom(buf, t, other, otherI, fuel - 1)
    case End => Success(otherI == |other|)
    case Text(len) =>
      if otherI != 0 && !(otherI < |other| && other[otherI] == Dot) then Success(false)
      else
        var j := if otherI != 0 then otherI + 1 else otherI;
        if j + len > |other| then Success(false)
        else if i + 1 + len > |buf| then Failure(OutOfBounds)
        else if !EqIgnoreCase(LabelText(buf, i, len), other[j..j + len]) then Success(false)
        else EqFrom(buf, i + 1 + len, other, j + len, fuel)
  }

  function Eq(n: QuestionName, other: seq<byte>, fuel: nat): (r: Result<bool, NameError>)
  {
    EqFrom(n.buf, n.start, other, 0, fuel)
  }

  /** The text a label chain renders to, or the failure that stopped it. */
  function JoinResult(r: Result<seq<seq<byte>>, NameError>, first: bool): Result<seq<byte>, NameError>
  {
    match r
    case Success(ls) => Success(if first then Join(ls) else Dotted(ls))
    case Failure(e) => Failure(e)
  }

  /** One label step of the corrected rendering, in terms of the label chain after it. */
  lemma RenderLabelStep(l: seq<byte>, first: bool, rest: Result<seq<seq<byte>>, NameError>)
    ensures Prefix((if first then [] else [Dot]) + l, JoinResult(rest, false)) == JoinResult(Prefix([l], rest), first)
  {
    if rest.Success? {
      JoinCons(l, rest.value);
      assert [] + l == l;
      assert ([Dot] + l) + Dotted(rest.value) == [Dot] + (l + Dotted(rest.value));
    }
  }

  /** Rendering is the label chain joined by dots, and fails exactly as resolution fails. */
  lemma {:induction false} RenderFromMatchesLabels(buf: seq<byte>, i: nat, first: bool, fuel: nat)
    ensures RenderFrom(buf, i, first, fuel) == JoinResult(Labels(buf, i, fuel), first)
    decreases fuel, |buf| - i
  {
    match EntryAt(buf, i)
    case Missing =>
    case End =>
    case Jump(t) =>
      if fuel > 0 {
        RenderFromMatchesLabels(buf, t, first, fuel - 1);
      }
    case Text(len) =>
      if i + 1 + len <= |buf| {
        RenderFromMatchesLabels(buf, i + 1 + len, false, fuel);
        RenderTextStep(buf, i, first, fuel, len);
      }
  }

  /** One label step of the corrected rendering, given the rendering of the chain after the label. */
  lemma RenderTextStep(buf: seq<byte>, i: nat, first: bool, fuel: nat, len: nat)
    requires EntryAt(buf, i) == Text(len) && i + 1 + len <= |buf|
    requires RenderFrom(buf, i + 1 + len, false, fuel) == JoinResult(Labels(buf, i + 1 + len, fuel), false)
    ensures RenderFrom(buf, i, first, fuel) == JoinResult(Labels(buf, i, fuel), first)
  {
    RenderLabelStep(LabelText(buf, i, len), first, Labels(buf, i + 1 + len, fuel));
  }

  /** `Display` of a name (corrected) is its labels joined by single dots. */
  lemma RenderMatchesLabels(n: QuestionName, fuel: nat)
    ensures Render(n, fuel).Success? <==> Labels(n.buf, n.start, fuel).Success?
    ensures Render(n, fuel).Success? ==> Render(n, fuel).value == Join(Labels(n.buf, n.start, fuel).value)
  {
    RenderFromMatchesLabels(n.buf, n.start, true, fuel);
  }

  /** Matching a label followed by more text against the string from offset `j`. */
  lemma EqAfterLabel(l: seq<byte>, rest: seq<byte>, other: seq<byte>, j: nat)
    requires j <= |other|
    ensures EqIgnoreCase(l + rest, other[j..]) <==>
      j + |l| <= |other| && EqIgnoreCase(l, other[j..j + |l|]) && EqIgnoreCase(rest, other[j + |l|..])
  {
    EqIgnoreCaseSplit(l, rest, other[j..]);
    if j + |l| <= |other| {
      assert other[j..][..|l|] == other[j..j + |l|];
      assert other[j..][|l|..] == other[j + |l|..];
    }
  }

  /** Matching a `.`, a label and more text against the string from offset `otherI`. */
  lemma EqAfterDot(l: seq<byte>, rest: seq<byte>, other: seq<byte>, otherI: nat)
    requires otherI <= |other|
    ensures EqIgnoreCase([Dot] + (l + rest), other[otherI..]) <==>
      otherI < |other| && other[otherI] == Dot && EqIgnoreCase(l + rest, other[otherI + 1..])
  {
    var o := other[otherI..];
    EqIgnoreCaseSplit([Dot], l + rest, o);
    if otherI < |other| {
      DotFoldsOnlyFromDot(o[0]);
      assert EqIgnoreCase([Dot], o[..1]) <==> ToLower(Dot) == ToLower(o[0]);
      assert o[1..] == other[otherI + 1..];
    }
  }

  /** A resolved chain that starts with a label is that label, then the resolved chain after it. */
  lemma LabelsTextStep(buf: seq<byte>, i: nat, fuel: nat, len: nat)
    requires EntryAt(buf, i) == Text(len) && Labels(buf, i, fuel).Success?
    ensures i + 1 + len <= |buf| && Labels(buf, i + 1 + len, fuel).Success?
    ensures Labels(buf, i, fuel).value == [LabelText(buf, i, len)] + Labels(buf, i + 1 + len, fuel).value
  {
  }

  /** What `eq` should answer from string offset `otherI` for a resolved chain `ls`. */
  predicate Matches(ls: seq<seq<byte>>, other: seq<byte>, otherI: nat)
    requires otherI <= |other|
  {
    EqIgnoreCase(if otherI == 0 then Join(ls) else Dotted(ls), other[otherI..])
  }

  /** One step of `eq` at the first label: match it at the start of the string, then the rest. */
  lemma EqFirstLabelStep(buf: seq<byte>, i: nat, other: seq<byte>, fuel: nat, len: nat, rest: seq<seq<byte>>)
    requires EntryAt(buf, i) == Text(len) && i + 1 + len <= |buf|
    requires len <= |other| ==> EqFrom(buf, i + 1 + len, other, len, fuel) == Success(Matches(rest, other, len))
    ensures EqFrom(buf, i, other, 0, fuel) == Success(Matches([LabelText(buf, i, len)] + rest, other, 0))
  {
    var l := LabelText(buf, i, len);
    JoinCons(l, rest);
    EqAfterLabel(l, Dotted(rest), other, 0);
  }

  /** One step of `eq` at a later label: match a `.`, the label, then the rest. */
  lemma EqNextLabelStep(buf: seq<byte>, i: nat, other: seq<byte>, otherI: nat, fuel: nat, len: nat, rest: seq<seq<byte>>)
    requires EntryAt(buf, i) == Text(len) && i + 1 + len <= |buf|
    requires 0 < otherI <= |other|
    requires otherI + 1 + len <= |other| ==>
      EqFrom(buf, i + 1 + len, other, otherI + 1 + len, fuel) == Success(Matches(rest, other, otherI + 1 + len))
    ensures EqFrom(buf, i, other, otherI, fuel) == Success(Matches([LabelText(buf, i, len)] + rest, other, otherI))
  {
    var l := LabelText(buf, i, len);
    JoinCons(l, rest);
    EqAfterDot(l, Dotted(rest), other, otherI);
    if otherI < |other| {
      EqAfterLabel(l, Dotted(rest), other, otherI + 1);
    }
  }

  /** Where `eq` resumes in the string after matching a label of `len` bytes from `otherI`. */
  function ResumeAt(otherI: nat, len: nat): nat
  {
    if otherI == 0 then len else otherI + 1 + len
  }

  /** One label step of `eq` against a resolved chain, given the answer for the chain after the label. */
  lemma EqLabelStep(buf: seq<byte>, i: nat, other: seq<byte>, otherI: nat, fuel: nat, len: nat)
    requires otherI <= |other|
    requires EntryAt(buf, i) == Text(len) && Labels(buf, i, fuel).Success?
    requires ResumeAt(otherI, len) <= |other| ==>
      EqFrom(buf, i + 1 + len, other, ResumeAt(otherI, len), fuel)
        == Success(Matches(Labels(buf, i + 1 + len, fuel).value, other, ResumeAt(otherI, len)))
    ensures EqFrom(buf, i, other, otherI, fuel) == Success(Matches(Labels(buf, i, fuel).value, other, otherI))
  {
    LabelsTextStep(buf, i, fuel, len);
    var rest := Labels(buf, i + 1 + len, fuel).value;
    if otherI == 0 {
      EqFirstLabelStep(buf, i, other, fuel, len, rest);
    } else {
      EqNextLabelStep(buf, i, other, otherI, fuel, len, rest);
    }
  }

  /**
    When the chain resolves, `eq` answers whether the string equals the dotted
    form ignoring ASCII case; `otherI == 0` marks that no label was matched yet.
   */
  lemma {:induction false} EqFromMatchesJoin(buf: seq<byte>, i: nat, other: seq<byte>, otherI: nat, fuel: nat)
    requires otherI <= |other|
    requires Labels(buf, i, fuel).Success?
    ensures EqFrom(buf, i, other, otherI, fuel) == Success(Matches(Labels(buf, i, fuel).value, other, otherI))
    decreases fuel, |buf| - i
  {
    match EntryAt(buf, i)
    case End =>
      assert Labels(buf, i, fuel).value == [];
    case Jump(t) =>
      EqFromMatchesJoin(buf, t, other, otherI, fuel - 1);
    case Text(len) =>
      LabelsTextStep(buf, i, fuel, len);
      if ResumeAt(otherI, len) <= |other| {
        EqFromMatchesJoin(buf, i + 1 + len, other, ResumeAt(otherI, len), fuel);
      }
      EqLabelStep(buf, i, other, otherI, fuel, len);
  }

  /** `eq` answers `true` only for a name whose label chain resolves. */
  lemma {:induction false} EqTrueResolves(buf: seq<byte>, i: nat, other: seq<byte>, otherI: nat, fuel: nat)
    requires otherI <= |other|
    requires EqFrom(buf, i, other, otherI, fuel) == Success(true)
    ensures Labels(buf, i, fuel).Success?
    decreases fuel, |buf| - i
  {
    match EntryAt(buf, i)
    case End =>
    case Jump(t) =>
      EqTrueResolves(buf, t, other, otherI, fuel - 1);
    case Text(len) =>
      var j := if otherI != 0 then otherI + 1 else otherI;
      EqTrueResolves(buf, i + 1 + len, other, j + len, fuel);
  }

  /**
    `eq` is true exactly when the name resolves and the string is its dotted
    form up to ASCII case: same labels in order, one `.` between labels, no
    trailing dot.
   */
  lemma EqIffDottedForm(n: QuestionName, other: seq<byte>, fuel: nat)
    ensures Eq(n, other, fuel) == Success(true) <==>
      Labels(n.buf, n.start, fuel).Success? && EqIgnoreCase(Join(Labels(n.buf, n.start, fuel).value), other)
    ensures Labels(n.buf, n.start, fuel).Success? ==> Eq(n, other, fuel).Success?
  {
    if Labels(n.buf, n.start, fuel).Success? {
      EqFromMatchesJoin(n.buf, n.start, other, 0, fuel);
      assert other[0..] == other;
    }
    if Eq(n, other, fuel) == Success(true) {
      EqTrueResolves(n.buf, n.start, other, 0, fuel);
    }
  }

  /** A resolvable name compares equal to its own (corrected) rendering. */
  lemma EqOwnRendering(n: QuestionName, fuel: nat)
    requires Render(n, fuel).Success?
    ensures Eq(n, Render(n, fuel).value, fuel) == Success(true)
  {
    RenderMatchesLabels(n, fuel);
    EqIffDottedForm(n, Render(n, fuel).value, fuel);
  }

  /** Extra fuel never changes a resolved chain: fuel only bounds the jumps. */
  lemma {:induction false} LabelsFuelMonotone(buf: seq<byte>, i: nat, fuel: nat, more: nat)
    requires Labels(buf, i, fuel).Success?
    requires fuel <= more
    ensures Labels(buf, i, more) == Labels(buf, i, fuel)
    decreases fuel, |buf| - i
  {
    match EntryAt(buf, i)
    case End =>
    case Jump(t) =>
      LabelsFuelMonotone(buf, t, fuel - 1, more - 1);
    case Text(len) =>
      LabelsFuelMonotone(buf, i + 1 + len, fuel, more);
  }

  /**
    A pointer to its own offset never resolves, whatever the jump budget:
    the unbounded source loops forever on it, in `Display` and in `eq`.
   */
  lemma {:induction false} SelfPointerNeverResolves(buf: seq<byte>, p: nat, other: seq<byte>, otherI: nat, fuel: nat)
    requires EntryAt(buf, p) == Jump(p)
    requires otherI <= |other|
    ensures Labels(buf, p, fuel) == Failure(JumpLimit)
    ensures RenderAsWritten(buf, p, p, fuel) == Failure(JumpLimit)
    ensures EqFrom(buf, p, other, otherI, fuel) == Failure(JumpLimit)
  {
    if fuel > 0 {
      SelfPointerNeverResolves(buf, p, other, otherI, fuel - 1);
    }
  }

  /** Resolution steps over one encoded label and keeps its text. */
  lemma LabelsAtLabel(buf: seq<byte>, i: nat, l: Label, fuel: nat)
    requires ValidLabel(l) && At(buf, i, [l.descriptor] + l.text)
    ensures EntryAt(buf, i) == Text(|l.text|)
    ensures Labels(buf, i, fuel) == Prefix([l.text], Labels(buf, i + 1 + |l.text|, fuel))
  {
    AtSplit(buf, i, [l.descriptor], l.text);
    AtSlice(buf, i + 1, l.text);
  }

  lemma PrefixPrefix<T>(a: seq<T>, b: seq<T>, r: Result<seq<T>, NameError>)
    ensures Prefix(a, Prefix(b, r)) == Prefix(a + b, r)
  {
    if r.Success? {
      assert a + (b + r.value) == (a + b) + r.value;
    }
  }

  /** Round trip, encoder then resolver: a pointer-free encoded name resolves, without jumps, to its label texts. */
  lemma {:induction false} ResolveEncodedName(buf: seq<byte>, i: nat, ls: seq<Label>, d: byte, fuel: nat)
    requires ValidLabels(ls) && ValidTerminal(Root(d))
    requires At(buf, i, EncodeName(ls, Root(d)))
    ensures Labels(buf, i, fuel) == Success(Texts(ls))
    decreases |ls|
  {
    if |ls| == 0 {
      assert buf[i] == EncodeName(ls, Root(d))[0] == d;
      assert EntryAt(buf, i) == End;
    } else {
      var l, rest := ls[0], ls[1..];
      var next := i + 1 + |l.text|;
      AtFirstLabel(buf, i, ls, Root(d));
      LabelsAtLabel(buf, i, l, fuel);
      ResolveEncodedName(buf, next, rest, d, fuel);
      PrefixOfSuccess([l.text], Texts(rest));
    }
  }

  /** Following a pointer continues the same chain: labels before it, then the chain at its target. */
  lemma {:induction false} ResolveThroughPointer(buf: seq<byte>, i: nat, ls: seq<Label>, hi: byte, lo: byte, fuel: nat)
    requires ValidLabels(ls) && IsPointer(hi)
    requires At(buf, i, EncodeName(ls, Pointer(hi, lo)))
    ensures Labels(buf, i, fuel + 1) == Prefix(Texts(ls), Labels(buf, Target(hi, lo), fuel))
    decreases |ls|
  {
    var r := Labels(buf, Target(hi, lo), fuel);
    if |ls| == 0 {
      assert buf[i] == EncodeName(ls, Pointer(hi, lo))[0] == hi;
      assert buf[i + 1] == EncodeName(ls, Pointer(hi, lo))[1] == lo;
      assert EntryAt(buf, i) == Jump(Target(hi, lo));
      PrefixEmpty(r);
    } else {
      var l := ls[0];
      AtFirstLabel(buf, i, ls, Pointer(hi, lo));
      LabelsAtLabel(buf, i, l, fuel + 1);
      ResolveThroughPointer(buf, i + 1 + |l.text|, ls[1..], hi, lo, fuel);
      PrefixPrefix([l.text], Texts(ls[1..]), r);
    }
  }

  lemma PrefixOfSuccess<T>(p: seq<T>, v: seq<T>)
    ensures Prefix(p, Success(v)) == Success(p + v)
  {
  }

  lemma PrefixEmpty<T>(r: Result<seq<T>, NameError>)
    ensures Prefix([], r) == r
  {
    if r.Success? {
      assert [] + r.value == r.value;
    }
  }

  lemma TextsAppend(a: seq<Label>, b: seq<Label>)
    ensures Texts(a + b) == Texts(a) + Texts(b)
  {
  }

  /** A name whose tail points at an encoded pointer-free name resolves to the labels of both, in order. */
  lemma ResolvePointerChain(buf: seq<byte>, i: nat, ls: seq<Label>, hi: byte, lo: byte, ms: seq<Label>, d: byte, fuel: nat)
    requires ValidLabels(ls) && ValidLabels(ms) && IsPointer(hi) && ValidTerminal(Root(d))
    requires At(buf, i, EncodeName(ls, Pointer(hi, lo)))
    requires At(buf, Target(hi, lo), EncodeName(ms, Root(d)))
    ensures Labels(buf, i, fuel + 1) == Success(Texts(ls + ms))
  {
    ResolveEncodedName(buf, Target(hi, lo), ms, d, fuel);
    ResolveThroughPointer(buf, i, ls, hi, lo, fuel);
    TextsAppend(ls, ms);
  }

  /** A name that resolves to `ts` renders as `ts` joined by dots. */
  lemma RenderResolved(buf: seq<byte>, i: nat, fuel: nat, ts: seq<seq<byte>>)
    requires Labels(buf, i, fuel) == Success(ts)
    ensures Render(QuestionName(buf, i), fuel) == Success(Join(ts))
  {
    RenderFromMatchesLabels(buf, i, true, fuel);
  }

  /**
    A name whose tail is a pointer to an independently encoded name renders,
    using one more jump, exactly like the fully inlined name.
   */
  lemma PointerRendersAsInlined(buf: seq<byte>, i: nat, ls: seq<Label>, hi: byte, lo: byte, ms: seq<Label>, d: byte, j: nat, fuel: nat)
    requires ValidLabels(ls) && ValidLabels(ms) && IsPointer(hi) && ValidTerminal(Root(d))
    requires At(buf, i, EncodeName(ls, Pointer(hi, lo)))
    requires At(buf, Target(hi, lo), EncodeName(ms, Root(d)))
    requires At(buf, j, EncodeName(ls + ms, Root(d)))
    ensures Render(QuestionName(buf, i), fuel + 1) == Render(QuestionName(buf, j), fuel) == Success(Join(Texts(ls + ms)))
  {
    ResolvePointerChain(buf, i, ls, hi, lo, ms, d, fuel);
    RenderResolved(buf, i, fuel + 1, Texts(ls + ms));
    ValidLabelsAppend(ls, ms);
    ResolveEncodedName(buf, j, ls + ms, d, fuel);
    RenderResolved(buf, j, fuel, Texts(ls + ms));
  }

  /**
    The chain from `i`, following at most `fuel` jumps, never reaches a label
    at offset `start`: from there on the as-written `Display` puts a `.`
    before every label.
   */
  predicate AvoidsStart(buf: seq<byte>, start: nat, i: nat, fuel: nat)
    decreases fuel, |buf| - i
  {
    match EntryAt(buf, i)
    case Missing => true
    case End => true
    case Jump(t) => fuel == 0 || AvoidsStart(buf, start, t, fuel - 1)
    case Text(len) => i != start && (i + 1 + len > |buf| || AvoidsStart(buf, start, i + 1 + len, fuel))
  }

  /** Away from the name's start, the as-written rendering agrees with the corrected one. */
  lemma {:induction false} AsWrittenAwayFromStart(buf: seq<byte>, start: nat, i: nat, fuel: nat)
    requires AvoidsStart(buf, start, i, fuel)
    ensures RenderAsWritten(buf, start, i, fuel) == RenderFrom(buf, i, false, fuel)
    decreases fuel, |buf| - i
  {
    match EntryAt(buf, i)
    case Missing =>
    case End =>
    case Jump(t) =>
      if fuel > 0 {
        AsWrittenAwayFromStart(buf, start, t, fuel - 1);
      }
    case Text(len) =>
      if i + 1 + len <= |buf| {
        AsWrittenAwayFromStart(buf, start, i + 1 + len, fuel);
      }
  }

  /** A name that starts with a pointer has no label at its start, so every chain avoids it. */
  lemma {:induction false} PointerStartAvoided(buf: seq<byte>, start: nat, i: nat, fuel: nat)
    requires EntryAt(buf, start).Jump?
    ensures AvoidsStart(buf, start, i, fuel)
    decreases fuel, |buf| - i
  {
    match EntryAt(buf, i)
    case Missing =>
    case End =>
    case Jump(t) =>
      if fuel > 0 {
        PointerStartAvoided(buf, start, t, fuel - 1);
      }
    case Text(len) =>
      if i + 1 + len <= |buf| {
        PointerStartAvoided(buf, start, i + 1 + len, fuel);
      }
  }

  /**
    The jump budget left when a chain that does not avoid `start` comes back
    to the label at `start`: never more than it began with, and less when it
    began after `start` (the cursor only moves backwards through a jump).
   */
  function ReturnFuel(buf: seq<byte>, start: nat, i: nat, fuel: nat): (g: nat)
    requires !AvoidsStart(buf, start, i, fuel)
    ensures g <= fuel && (i > start ==> g < fuel)
    decreases fuel, |buf| - i
  {
    match EntryAt(buf, i)
    case Missing => fuel
    case End => fuel
    case Jump(t) => ReturnFuel(buf, start, t, fuel - 1)
    case Text(len) => if i == start then fuel else ReturnFuel(buf, start, i + 1 + len, fuel)
  }

  /** A resolvable chain that comes back to `start` shows that the chain at `start` resolves with the budget left. */
  lemma {:induction false} ReturnResolves(buf: seq<byte>, start: nat, i: nat, fuel: nat)
    requires !AvoidsStart(buf, start, i, fuel) && Labels(buf, i, fuel).Success?
    ensures Labels(buf, start, ReturnFuel(buf, start, i, fuel)).Success?
    decreases fuel, |buf| - i
  {
    match EntryAt(buf, i)
    case Jump(t) =>
      ReturnResolves(buf, start, t, fuel - 1);
    case Text(len) =>
      if i != start {
        ReturnResolves(buf, start, i + 1 + len, fuel);
      }
  }

  /** Extra fuel never changes whether a resolvable chain avoids `start`. */
  lemma {:induction false} AvoidsStartFuelMonotone(buf: seq<byte>, start: nat, i: nat, fuel: nat, more: nat)
    requires Labels(buf, i, fuel).Success? && fuel <= more
    ensures AvoidsStart(buf, start, i, more) == AvoidsStart(buf, start, i, fuel)
    decreases fuel, |buf| - i
  {
    match EntryAt(buf, i)
    case End =>
    case Jump(t) =>
      AvoidsStartFuelMonotone(buf, start, t, fuel - 1, more - 1);
    case Text(len) =>
      AvoidsStartFuelMonotone(buf, start, i + 1 + len, fuel, more);
  }

  /**
    A resolvable name that starts with a label never comes back to that label:
    a chain that did would repeat itself with fewer jumps left, and never end.
   */
  lemma {:induction false} ResolvedNeverReturns(buf: seq<byte>, start: nat, fuel: nat)
    requires EntryAt(buf, start).Text? && Labels(buf, start, fuel).Success?
    ensures start + 1 + EntryAt(buf, start).len <= |buf|
    ensures AvoidsStart(buf, start, start + 1 + EntryAt(buf, start).len, fuel)
    decreases fuel
  {
    var len := EntryAt(buf, start).len;
    var next := start + 1 + len;
    LabelsTextStep(buf, start, fuel, len);
    if !AvoidsStart(buf, start, next, fuel) {
      var g := ReturnFuel(buf, start, next, fuel);
      ReturnResolves(buf, start, next, fuel);
      ResolvedNeverReturns(buf, start, g);
      LabelsTextStep(buf, start, g, len);
      AvoidsStartFuelMonotone(buf, start, next, g, fuel);
      assert false;
    }
  }

  /** The as-written rendering fails exactly when resolution fails, with the same error. */
  lemma {:induction false} AsWrittenFailsAsLabels(buf: seq<byte>, start: nat, i: nat, fuel: nat)
    ensures RenderAsWritten(buf, start, i, fuel).Success? <==> Labels(buf, i, fuel).Success?
    ensures Labels(buf, i, fuel).Failure? ==> RenderAsWritten(buf, start, i, fuel) == Failure(Labels(buf, i, fuel).error)
    decreases fuel, |buf| - i
  {
    match EntryAt(buf, i)
    case Missing =>
    case End =>
    case Jump(t) =>
      if fuel > 0 {
        AsWrittenFailsAsLabels(buf, start, t, fuel - 1);
      }
    case Text(len) =>
      if i + 1 + len <= |buf| {
        AsWrittenFailsAsLabels(buf, start, i + 1 + len, fuel);
      }
  }

  /** As written, a name starting with a label renders like the corrected `Display`. */
  lemma AsWrittenLabelStart(n: QuestionName, fuel: nat)
    requires EntryAt(n.buf, n.start).Text?
    ensures RenderAsWritten(n.buf, n.start, n.start, fuel) == Render(n, fuel)
  {
    var buf, start, len := n.buf, n.start, EntryAt(n.buf, n.start).len;
    RenderFromMatchesLabels(buf, start, true, fuel);
    if Labels(buf, start, fuel).Success? {
      ResolvedNeverReturns(buf, start, fuel);
      AsWrittenAwayFromStart(buf, start, start + 1 + len, fuel);
      assert RenderAsWritten(buf, start, start, fuel)
        == Prefix([] + LabelText(buf, start, len), RenderFrom(buf, start + 1 + len, false, fuel));
    } else {
      AsWrittenFailsAsLabels(buf, start, start, fuel);
    }
  }

  /**
    `Display` as written, in full: the resolved labels, joined by single dots
    when the name starts with a label or is empty, but with a `.` before every
    label, the first one included, when the name starts with a pointer.
   */
  lemma AsWrittenDisplay(n: QuestionName, fuel: nat)
    ensures RenderAsWritten(n.buf, n.start, n.start, fuel)
      == JoinResult(Labels(n.buf, n.start, fuel), !EntryAt(n.buf, n.start).Jump?)
  {
    var buf, start := n.buf, n.start;
    match EntryAt(buf, start)
    case Missing =>
    case End =>
    case Text(_) =>
      AsWrittenLabelStart(n, fuel);
      RenderFromMatchesLabels(buf, start, true, fuel);
    case Jump(t) =>
      if fuel > 0 {
        PointerStartAvoided(buf, start, t, fuel - 1);
        AsWrittenAwayFromStart(buf, start, t, fuel - 1);
        RenderFromMatchesLabels(buf, t, false, fuel - 1);
      }
  }

  /** The as-written and the corrected `Display` agree on every name that does not start with a pointer. */
  lemma AsWrittenMatchesCorrected(n: QuestionName, fuel: nat)
    requires !EntryAt(n.buf, n.start).Jump?
    ensures RenderAsWritten(n.buf, n.start, n.start, fuel) == Render(n, fuel)
  {
    AsWrittenDisplay(n, fuel);
    RenderFromMatchesLabels(n.buf, n.start, true, fuel);
  }

  /**
    As written, a name with labels before a pointer to an encoded name renders
    as the dotted form of all its labels, `www` + pointer to `example.com`
    as `www.example.com`.
   */
  lemma AsWrittenPointerTail(buf: seq<byte>, i: nat, ls: seq<Label>, hi: byte, lo: byte, ms: seq<Label>, d: byte, fuel: nat)
    requires |ls| > 0 && ValidLabels(ls) && ValidLabels(ms) && IsPointer(hi) && ValidTerminal(Root(d))
    requires At(buf, i, EncodeName(ls, Pointer(hi, lo)))
    requires At(buf, Target(hi, lo), EncodeName(ms, Root(d)))
    ensures RenderAsWritten(buf, i, i, fuel + 1) == Success(Join(Texts(ls + ms)))
  {
    AtFirstLabel(buf, i, ls, Pointer(hi, lo));
    LabelsAtLabel(buf, i, ls[0], fuel + 1);
    ResolvePointerChain(buf, i, ls, hi, lo, ms, d, fuel);
    AsWrittenDisplay(QuestionName(buf, i), fuel + 1);
  }

  /**
    As written, the `Display` of a name that starts with a pointer to a chain
    of labels `ls` begins with a stray `.`, while the corrected rendering is
    `ls` joined by dots.
   */
  lemma LeadingDotAfterPointer(buf: seq<byte>, start: nat, t: nat, ls: seq<seq<byte>>, fuel: nat)
    requires EntryAt(buf, start) == Jump(t)
    requires Labels(buf, t, fuel) == Success(ls) && |ls| > 0
    ensures RenderAsWritten(buf, start, start, fuel + 1) == Success([Dot] + Join(ls))
    ensures Render(QuestionName(buf, start), fuel + 1) == Success(Join(ls))
  {
    AsWrittenDisplay(QuestionName(buf, start), fuel + 1);
    RenderMatchesLabels(QuestionName(buf, start), fuel + 1);
    JoinCons(ls[0], ls[1..]);
    assert [ls[0]] + ls[1..] == ls;
  }

  /** The label text `com`. */
  const Com: seq<byte> := [0x63, 0x6F, 0x6D]

  /** `com` at offset 0, then a name at offset 5 that is only a pointer to it. */
  const ComThenPointer: seq<byte> := [0x03, 0x63, 0x6F, 0x6D, 0x00, 0xC0, 0x00]

  /** The chain at offset 0 of `ComThenPointer` is the single label `com`. */
  lemma ComChain()
    ensures Labels(ComThenPointer, 0, 0) == Success([Com])
  {
    var buf := ComThenPointer;
    assert LabelText(buf, 0, 3) == Com;
    assert EntryAt(buf, 4) == End;
    assert EntryAt(buf, 0) == Text(3);
    assert Labels(buf, 4, 0) == Success([]);
    assert [Com] + [] == [Com];
  }

  /**
    The smallest case: `Display` as written renders the name at offset 5 of
    `ComThenPointer` as `.com`, although `eq` accepts `com` for it.
   */
  lemma LeadingDotExample()
    ensures RenderAsWritten(ComThenPointer, 5, 5, 1) == Success([Dot] + Com)
    ensures Render(QuestionName(ComThenPointer, 5), 1) == Success(Com)
    ensures Eq(QuestionName(ComThenPointer, 5), Com, 1) == Success(true)
  {
    assert EntryAt(ComThenPointer, 5) == Jump(0);
    ComChain();
    LeadingDotAfterPointer(ComThenPointer, 5, 0, [Com], 0);
    assert Join([Com]) == Com + Dotted([]) == Com;
    EqOwnRendering(QuestionName(ComThenPointer, 5), 1);
  }
}
