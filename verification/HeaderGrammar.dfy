/** The header block as a byte machine (library/parser_header.c), and the grammar it
    accepts: what apreq_parse_headers computes, without buckets. */
module HeaderGrammar {
  import opened Bytes

  datatype Phase =
    | NamePhase
    | GapPhase
    | ValuePhase
    | Newline
    | Endline
    | Foldline
    | Lastline
    | Complete
    | Failed

  /** One header as it was received: name, colon and blanks, value with its line ends. */
  datatype Raw = Raw(name: bytes, gap: bytes, val: bytes)

  datatype HState = HState(phase: Phase, cur: Raw, fields: seq<Raw>, left: bytes, err: Status)

  const NoLine := Raw([], [], [])

  const Init := HState(NamePhase, NoLine, [], [], Success)

  /** A value without the CRs and LFs of its line ends, as section 3.1.1 of RFC 822
      unfolds it. */
  function Unfold(val: bytes): bytes {
    if val == [] then []
    else (if val[0] == CR || val[0] == LF then [] else [val[0]]) + Unfold(val[1..])
  }

  function Text(r: Raw): bytes { r.name + r.gap + r.val }

  function Entries(rs: seq<Raw>): (es: seq<Entry>)
    ensures |es| == |rs|
    ensures forall i :: 0 <= i < |rs| ==> es[i] == Entry(rs[i].name, Unfold(rs[i].val))
  {
    seq(|rs|, i requires 0 <= i < |rs| => Entry(rs[i].name, Unfold(rs[i].val)))
  }

  // ------------------------------------------------------------ the machine

  function Fail(h: HState, e: Status): HState { h.(phase := Failed, err := e) }

  function Extend(h: HState, p: Phase, ch: byte): HState {
    h.(phase := p, cur := h.cur.(val := h.cur.val + [ch]))
  }

  /** The branch of HDR_NEWLINE that consumes the finished line and starts the next. */
  function NextLine(h: HState, ch: byte): HState {
    var g := h.(fields := h.fields + [h.cur], cur := NoLine);
    if ch == LF then g.(phase := Complete)
    else if ch == CR then g.(phase := Lastline, cur := NoLine.(val := [CR]))
    else if !IsToken(ch) then Fail(g, BadChar)
    else g.(phase := NamePhase, cur := NoLine.(name := [ch]))
  }

  function Step(h: HState, ch: byte): HState {
    match h.phase
    case NamePhase =>
      if ch == COLON then
        if h.cur.name == [] then Fail(h, BadHeader) else h.(phase := GapPhase, cur := h.cur.(gap := [ch]))
      else if !IsToken(ch) then Fail(h, BadChar)
      else h.(cur := h.cur.(name := h.cur.name + [ch]))
    case GapPhase =>
      if IsBlank(ch) then h.(cur := h.cur.(gap := h.cur.gap + [ch]))
      else if ch == LF then Extend(h, Newline, ch)
      else if ch == CR then Extend(h, Endline, ch)
      else if IsCntrl(ch) then Fail(h, BadChar)
      else Extend(h, ValuePhase, ch)
    case ValuePhase =>
      if ch == LF then Extend(h, Newline, ch)
      else if ch == CR then Extend(h, Endline, ch)
      else if IsCntrl(ch) then Fail(h, BadChar)
      else Extend(h, ValuePhase, ch)
    case Endline =>
      if ch != LF then Fail(h, BadHeader) else Extend(h, Newline, ch)
    case Lastline =>
      if ch != LF then Fail(h, BadHeader) else h.(phase := Complete, cur := NoLine)
    case Newline =>
      if IsBlank(ch) then Extend(h, Foldline, ch) else NextLine(h, ch)
    case Foldline =>
      if IsBlank(ch) then Extend(h, Foldline, ch)
      else if ch == LF then Extend(h, Newline, ch)
      else if ch == CR then Extend(h, Endline, ch)
      else if IsCntrl(ch) then Fail(h, BadChar)
      else Extend(h, ValuePhase, ch)
    case Complete => h.(left := h.left + [ch])
    case Failed => h
  }

  function Run(h: HState, s: bytes): HState
    decreases |s|
  {
    if s == [] then h else Run(Step(h, s[0]), s[1..])
  }

  /** Feeding two pieces is feeding their concatenation: where the block is cut does
      not matter. */
  lemma {:induction false} RunConcat(h: HState, a: bytes, b: bytes)
    ensures Run(h, a + b) == Run(Run(h, a), b)
    decreases |a|
  {
    if a == [] {
      assert a + b == b;
    } else {
      assert (a + b)[1..] == a[1..] + b;
      RunConcat(Step(h, a[0]), a[1..], b);
    }
  }

  lemma RunOne(h: HState, s: bytes, ch: byte)
    ensures Run(h, s + [ch]) == Step(Run(h, s), ch)
  {
    RunConcat(h, s, [ch]);
    assert [ch][1..] == [];
  }

  lemma {:induction false} RunDone(h: HState, s: bytes)
    requires h.phase == Complete
    ensures Run(h, s) == h.(left := h.left + s)
    decreases |s|
  {
    if s != [] {
      RunDone(Step(h, s[0]), s[1..]);
      assert h.left + s == (h.left + [s[0]]) + s[1..];
    } else {
      assert h.left + s == h.left;
    }
  }

  lemma {:induction false} RunFailed(h: HState, s: bytes)
    requires h.phase == Failed
    ensures Run(h, s) == h
  {
    if s != [] {
      RunFailed(h, s[1..]);
    }
  }

  // ------------------------------------------------------------ the grammar

  /** Position i of val lies in the blanks that follow a folded line end. */
  predicate InFold(val: bytes, i: nat)
    requires i <= |val|
  {
    i > 0 && (val[i - 1] == LF || (IsBlank(val[i - 1]) && InFold(val, i - 1)))
  }

  /** The beginning of a value with its line ends: LF or CRLF, each fold followed by a
      blank, no control character but a tab among the blanks of a fold. */
  ghost predicate ValuePrefix(val: bytes) {
    && val != [] && !IsBlank(val[0])
    && (forall i :: 0 <= i < |val| - 1 && val[i] == CR ==> val[i + 1] == LF)
    && (forall i :: 0 <= i < |val| - 1 && val[i] == LF ==> IsBlank(val[i + 1]))
    && (forall i :: 0 <= i < |val| && IsCntrl(val[i]) ==> val[i] == CR || val[i] == LF || (val[i] == TAB && InFold(val, i)))
  }

  ghost predicate WellFormed(r: Raw) {
    && r.name != [] && (forall c :: c in r.name ==> IsToken(c))
    && r.gap != [] && r.gap[0] == COLON && (forall i :: 1 <= i < |r.gap| ==> IsBlank(r.gap[i]))
    && ValuePrefix(r.val) && r.val[|r.val| - 1] == LF
  }

  function BlockText(rs: seq<Raw>): bytes {
    if rs == [] then [] else Text(rs[0]) + BlockText(rs[1..])
  }

  /** The empty line that ends a block. */
  predicate BlankLine(b: bytes) { b == [LF] || b == CRLF }

  function PhaseOf(val: bytes): Phase
    requires val != []
  {
    if val[|val| - 1] == LF then Newline
    else if val[|val| - 1] == CR then Endline
    else if InFold(val, |val|) then Foldline
    else ValuePhase
  }

  lemma {:induction false} InFoldPrefix(a: bytes, b: bytes, i: nat)
    requires i <= |a|
    ensures InFold(a + b, i) == InFold(a, i)
  {
    if i > 0 { InFoldPrefix(a, b, i - 1); }
  }

  lemma ValuePrefixShorter(val: bytes, ch: byte)
    requires val != [] && ValuePrefix(val + [ch])
    ensures ValuePrefix(val)
    ensures val[|val| - 1] == CR ==> ch == LF
    ensures val[|val| - 1] == LF ==> IsBlank(ch)
    ensures IsCntrl(ch) ==> ch == CR || ch == LF || (ch == TAB && InFold(val, |val|))
  {
    var v := val + [ch];
    forall i | 0 <= i < |val|
      ensures val[i] == v[i]
      ensures InFold(v, i) == InFold(val, i)
    {
      InFoldPrefix(val, [ch], i);
    }
    InFoldPrefix(val, [ch], |val|);
    assert v[|val| - 1] == val[|val| - 1] && v[|val|] == ch;
  }

  lemma ValuePrefixLonger(val: bytes, ch: byte)
    requires ValuePrefix(val)
    requires val[|val| - 1] == CR ==> ch == LF
    requires val[|val| - 1] == LF ==> IsBlank(ch)
    requires IsCntrl(ch) ==> ch == CR || ch == LF || (ch == TAB && InFold(val, |val|))
    ensures ValuePrefix(val + [ch])
  {
    var v := val + [ch];
    forall i | 0 <= i <= |val|
      ensures InFold(v, i) == InFold(val, i)
    {
      InFoldPrefix(val, [ch], i);
    }
  }

  /** The phase tells how the value read so far ends. */
  lemma PhaseStep(val: bytes, ch: byte)
    requires val != [] && ValuePrefix(val + [ch])
    ensures PhaseOf(val + [ch]) == Step(HState(PhaseOf(val), NoLine.(val := val), [], [], Success), ch).phase
  {
    ValuePrefixShorter(val, ch);
    var v := val + [ch];
    InFoldPrefix(val, [ch], |val|);
    assert v[|v| - 1] == ch;
  }

  // ------------------------------------------------------------ what the machine keeps

  ghost predicate NameOk(name: bytes) { forall c :: c in name ==> IsToken(c) }

  ghost predicate GapOk(gap: bytes) {
    gap != [] && gap[0] == COLON && forall i :: 1 <= i < |gap| ==> IsBlank(gap[i])
  }

  ghost predicate CurrentOk(h: HState) {
    match h.phase
    case NamePhase => NameOk(h.cur.name) && h.cur.gap == [] && h.cur.val == []
    case GapPhase => h.cur.name != [] && NameOk(h.cur.name) && GapOk(h.cur.gap) && h.cur.val == []
    case Lastline => h.cur == NoLine.(val := [CR])
    case Complete => h.cur == NoLine
    case Failed => true
    case _ =>
      && h.cur.name != [] && NameOk(h.cur.name) && GapOk(h.cur.gap)
      && ValuePrefix(h.cur.val) && PhaseOf(h.cur.val) == h.phase
  }

  ghost predicate FieldsOk(rs: seq<Raw>) {
    forall i :: 0 <= i < |rs| ==> WellFormed(rs[i])
  }

  /** Every finished line is in the grammar, and the current one is the beginning of one. */
  ghost predicate Inv(h: HState) {
    && CurrentOk(h)
    && FieldsOk(h.fields)
    && (h.phase != Complete ==> h.left == [])
    && (h.phase == Failed ==> h.err == BadHeader || h.err == BadChar)
  }

  lemma CurrentStep(h: HState, ch: byte)
    requires CurrentOk(h)
    ensures CurrentOk(Step(h, ch))
  {
    var g := Step(h, ch);
    if (h.phase in {ValuePhase, Endline, Foldline} && g.phase != Failed) || (h.phase == Newline && IsBlank(ch)) {
      ValuePrefixLonger(h.cur.val, ch);
      PhaseStep(h.cur.val, ch);
    } else if h.phase == GapPhase && !IsBlank(ch) && g.phase != Failed {
      assert [ch][|[ch]| - 1] == ch;
    }
  }

  lemma StepKeepsInv(h: HState, ch: byte)
    requires Inv(h)
    ensures Inv(Step(h, ch))
  {
    CurrentStep(h, ch);
  }

  lemma {:induction false} RunKeepsInv(h: HState, s: bytes)
    requires Inv(h)
    ensures Inv(Run(h, s))
    decreases |s|
  {
    if s != [] {
      StepKeepsInv(h, s[0]);
      RunKeepsInv(Step(h, s[0]), s[1..]);
    }
  }

  // ------------------------------------------------------------ nothing is lost

  /** s is what the machine has been fed to reach h. */
  ghost predicate Accounts(h: HState, s: bytes) {
    if h.phase == Complete then
      exists b :: BlankLine(b) && s == BlockText(h.fields) + b + h.left
    else
      s == BlockText(h.fields) + Text(h.cur)
  }

  lemma {:induction false} BlockTextSnoc(rs: seq<Raw>, r: Raw)
    ensures BlockText(rs + [r]) == BlockText(rs) + Text(r)
  {
    if rs == [] {
      assert [r][1..] == [];
    } else {
      assert (rs + [r])[1..] == rs[1..] + [r];
      BlockTextSnoc(rs[1..], r);
      assert Text(rs[0]) + (BlockText(rs[1..]) + Text(r)) == (Text(rs[0]) + BlockText(rs[1..])) + Text(r);
    }
  }

  lemma NextLineAccounts(h: HState, s: bytes, ch: byte)
    requires Accounts(h, s) && h.phase == Newline && !IsBlank(ch) && h.left == []
    requires NextLine(h, ch).phase != Failed
    ensures Accounts(NextLine(h, ch), s + [ch])
  {
    var g := NextLine(h, ch);
    BlockTextSnoc(h.fields, h.cur);
    if ch == LF {
      assert s + [ch] == BlockText(g.fields) + [LF] + g.left;
    } else {
      assert Text(g.cur) == [ch];
    }
  }

  lemma StepAccounts(h: HState, s: bytes, ch: byte)
    requires Inv(h) && Accounts(h, s) && h.phase != Failed && Step(h, ch).phase != Failed
    ensures Accounts(Step(h, ch), s + [ch])
  {
    var g := Step(h, ch);
    var block := BlockText(h.fields);
    if h.phase == Complete {
      var b :| BlankLine(b) && s == block + b + h.left;
      assert s + [ch] == block + b + g.left;
    } else if h.phase == Lastline {
      assert Text(h.cur) == [CR];
      assert s + [ch] == block + CRLF + g.left;
    } else if h.phase == Newline && !IsBlank(ch) {
      NextLineAccounts(h, s, ch);
    } else {
      TextGrows(h, ch);
      assert s + [ch] == block + (Text(h.cur) + [ch]);
    }
  }

  lemma TextGrows(h: HState, ch: byte)
    requires CurrentOk(h) && Step(h, ch).phase != Failed
    requires h.phase !in {Complete, Lastline, Failed} && (h.phase == Newline ==> IsBlank(ch))
    ensures Step(h, ch).phase != Complete && Step(h, ch).fields == h.fields
    ensures Text(Step(h, ch).cur) == Text(h.cur) + [ch]
  {
  }

  lemma NotFailedYet(h: HState, t: bytes)
    requires t != [] && Run(h, t).phase != Failed
    ensures Step(h, t[0]).phase != Failed
  {
    if Step(h, t[0]).phase == Failed { RunFailed(Step(h, t[0]), t[1..]); }
  }

  lemma {:induction false} RunAccounts(h: HState, s: bytes, t: bytes)
    requires Inv(h) && Accounts(h, s) && h.phase != Failed && Run(h, t).phase != Failed
    ensures Accounts(Run(h, t), s + t)
    decreases |t|
  {
    if t == [] {
      assert s + t == s;
    } else {
      NotFailedYet(h, t);
      StepKeepsInv(h, t[0]);
      StepAccounts(h, s, t[0]);
      RunAccounts(Step(h, t[0]), s + [t[0]], t[1..]);
      FirstMoves(s, t);
    }
  }

  lemma FirstMoves(s: bytes, t: bytes)
    requires t != []
    ensures (s + [t[0]]) + t[1..] == s + t
  {
  }

  // ------------------------------------------------------------ printed blocks parse

  lemma {:induction false} RunName(h: HState, name: bytes)
    requires h.phase == NamePhase && NameOk(name)
    ensures Run(h, name) == h.(cur := h.cur.(name := h.cur.name + name))
    decreases |name|
  {
    if name == [] {
      assert h.cur.name + name == h.cur.name;
    } else {
      var c := name[0];
      assert c in name && IsToken(c);
      forall d | d in name[1..] ensures IsToken(d) { assert d in name; }
      RunName(Step(h, c), name[1..]);
      assert h.cur.name + name == (h.cur.name + [c]) + name[1..];
    }
  }

  lemma {:induction false} RunBlanks(h: HState, gap: bytes)
    requires h.phase == GapPhase && forall i :: 0 <= i < |gap| ==> IsBlank(gap[i])
    ensures Run(h, gap) == h.(cur := h.cur.(gap := h.cur.gap + gap))
    decreases |gap|
  {
    if gap == [] {
      assert h.cur.gap + gap == h.cur.gap;
    } else {
      RunBlanks(Step(h, gap[0]), gap[1..]);
      assert h.cur.gap + gap == (h.cur.gap + [gap[0]]) + gap[1..];
    }
  }

  lemma {:induction false} RunValue(h: HState, val: bytes)
    requires h.phase == GapPhase && h.cur.val == [] && ValuePrefix(val)
    ensures Run(h, val) == h.(phase := PhaseOf(val), cur := h.cur.(val := val))
    decreases |val|
  {
    var n := |val| - 1;
    var v, ch := val[..n], val[n];
    assert val == v + [ch];
    RunOne(h, v, ch);
    if v != [] {
      ValuePrefixShorter(v, ch);
      RunValue(h, v);
      PhaseStep(v, ch);
    } else {
      assert Run(h, v) == h;
      assert [] + [ch] == [ch];
    }
  }

  /** The machine stands where a new line may begin. */
  predicate AtLineStart(h: HState) {
    (h.phase == NamePhase && h.cur == NoLine) || h.phase == Newline
  }

  function Finished(h: HState): seq<Raw> {
    if h.phase == Newline then h.fields + [h.cur] else h.fields
  }

  lemma RunGap(h: HState, gap: bytes)
    requires h.phase == NamePhase && h.cur.name != [] && GapOk(gap)
    ensures Run(h, gap) == h.(phase := GapPhase, cur := h.cur.(gap := gap))
  {
    RunBlanks(Step(h, COLON), gap[1..]);
    assert [COLON] + gap[1..] == gap;
  }

  lemma RunFreshLine(h: HState, r: Raw)
    requires h.phase == NamePhase && h.cur == NoLine && WellFormed(r)
    ensures Run(h, Text(r)) == h.(phase := Newline, cur := r)
  {
    RunConcat(h, r.name + r.gap, r.val);
    RunConcat(h, r.name, r.gap);
    RunName(h, r.name);
    assert [] + r.name == r.name;
    RunGap(Run(h, r.name), r.gap);
    RunValue(Run(h, r.name + r.gap), r.val);
  }

  lemma RunLine(h: HState, r: Raw)
    requires AtLineStart(h) && WellFormed(r)
    ensures Run(h, Text(r)) == h.(phase := Newline, cur := r, fields := Finished(h))
  {
    var g := h.(phase := NamePhase, cur := NoLine, fields := Finished(h));
    RunFreshLine(g, r);
    var t := Text(r);
    assert r.name[0] in r.name && t[0] == r.name[0];
    assert Step(h, t[0]) == Step(g, t[0]);
  }

  lemma {:induction false} RunBlock(h: HState, rs: seq<Raw>)
    requires AtLineStart(h) && rs != [] && FieldsOk(rs)
    ensures Run(h, BlockText(rs)).phase == Newline
    ensures Finished(Run(h, BlockText(rs))) == Finished(h) + rs
    ensures Run(h, BlockText(rs)).left == h.left && Run(h, BlockText(rs)).err == h.err
    decreases |rs|
  {
    RunConcat(h, Text(rs[0]), BlockText(rs[1..]));
    RunLine(h, rs[0]);
    assert Finished(h) + rs == (Finished(h) + [rs[0]]) + rs[1..];
    if |rs| > 1 {
      RunBlock(Run(h, Text(rs[0])), rs[1..]);
    }
  }

  lemma RunBlankLine(h: HState, blank: bytes)
    requires h.phase == Newline && BlankLine(blank)
    ensures Run(h, blank) == h.(phase := Complete, cur := NoLine, fields := Finished(h))
  {
    RunOne(h, [], LF);
    RunOne(h, [CR], LF);
    RunOne(h, [], CR);
    assert [] + [LF] == [LF] && [] + [CR] == [CR] && [CR] + [LF] == CRLF;
  }

  /** The table of a well-formed block is the list of its headers, and what follows the
      empty line is handed back. */
  lemma BlockParses(rs: seq<Raw>, blank: bytes, tail: bytes)
    requires rs != [] && BlankLine(blank) && FieldsOk(rs)
    ensures Run(Init, BlockText(rs) + blank + tail) == HState(Complete, NoLine, rs, tail, Success)
  {
    RunConcat(Init, BlockText(rs) + blank, tail);
    RunConcat(Init, BlockText(rs), blank);
    RunBlock(Init, rs);
    assert [] + rs == rs;
    RunBlankLine(Run(Init, BlockText(rs)), blank);
    RunDone(Run(Init, BlockText(rs) + blank), tail);
    assert [] + tail == tail;
  }

  lemma {:induction false} RunHasFields(h: HState, s: bytes)
    requires h.phase == Lastline || h.phase == Complete ==> h.fields != []
    ensures Run(h, s).phase == Complete ==> Run(h, s).fields != []
    decreases |s|
  {
    if s != [] { RunHasFields(Step(h, s[0]), s[1..]); }
  }

  /** Conversely, only a well-formed block with a header in it completes: the machine
      accepts the grammar and nothing else. */
  lemma OnlyBlocksParse(s: bytes)
    requires Run(Init, s).phase == Complete
    ensures
      var h := Run(Init, s);
      && h.fields != [] && FieldsOk(h.fields)
      && exists b :: BlankLine(b) && s == BlockText(h.fields) + b + h.left
  {
    assert BlockText([]) + Text(NoLine) == [];
    RunKeepsInv(Init, s);
    RunHasFields(Init, s);
    RunAccounts(Init, [], s);
    assert [] + s == s;
  }
}
