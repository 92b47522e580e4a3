/** What a multipart parser still expects, state by state, when the rest of a printed
    message is to come, and how each step of the machine keeps that expectation. */
module MultipartProgress {
  import opened Bytes
  import opened Delimiters
  import opened HeaderGrammar
  import opened HeaderParsers
  import opened Multipart

  datatype MStatus =
    | MfdInit
    | MfdNextline
    | MfdHeader
    | MfdPostHeader
    | MfdParam
    | MfdUpload
    | MfdMixed
    | MfdComplete
    | MfdError

  /** The state of a parser without bucket boundaries. bdry is the boundary itself;
      delimiter searches use Dashed(bdry) and Delim(bdry). */
  datatype MState = MState(
    status: MStatus,
    level: nat,
    bdry: bytes,
    inb: bytes,              // ctx->in
    eos: bool,               // ctx->in ends in EOS
    acc: bytes,              // ctx->bb
    hdr: HState,             // ctx->hdr_parser
    info: Option<seq<Entry>>,
    pname: Option<bytes>,
    upload: Param,
    next: Option<MState>)

  // ------------------------------------------------------------ expectation

  /** Content X, then the delimiter, then more is to come; U of it has been read. */
  ghost predicate Awaits(U: bytes, coming: bytes, X: bytes, d: bytes, more: bytes) {
    U + coming == X + (d + more) && |U| <= |X|
  }

  ghost predicate TailOk(tail: Tail) { NoCR(tail.close) }

  /** The parts still to be finished, the current one first, and the same for a nested
      message when the current part is one that is being read. */
  datatype Todo = Todo(parts: seq<Part>, inner: Option<Todo>)

  /** The text to come behind the body of the current part. */
  function After(m: MState, td: Todo, tail: Tail): bytes
    requires td.parts != []
  {
    Lines(td.parts[1..], m.bdry, tail)
  }

  /** The machine is as it is while the message td, tail is being sent, and coming is
      what is still to come after the bytes the parser holds. */
  ghost predicate Expect(m: MState, td: Todo, tail: Tail, coming: bytes)
    decreases m
  {
    && NoCR(m.bdry) && m.bdry != [] && TailOk(tail)
    && match m.status
       case MfdInit => InitExpect(m, td, tail, coming)
       case MfdNextline => NextlineExpect(m, td, tail, coming)
       case MfdHeader => td.parts != [] && HeaderExpect(m, td, tail, coming)
       case MfdPostHeader => td.parts != [] && PostHeaderExpect(m, td, tail, coming)
       case MfdParam =>
         && td.parts != [] && m.pname.Some? && m.info == Some(Entries(td.parts[0].headers))
         && LeafExpect(m, m.acc, td, None, tail, coming)
       case MfdUpload =>
         && td.parts != [] && m.acc == [] && m.upload.upload.Some?
         && LeafExpect(m, m.upload.upload.value, td, m.pname, tail, coming)
       case MfdMixed =>
         && td.parts != [] && m.next.Some? && td.inner.Some? && MixedExpect(m, td)
         && Expect(m.next.value, td.inner.value, InnerTail(m, td, tail), m.inb + coming)
       case MfdComplete => td.parts == []
       case MfdError => false
  }

  ghost predicate InitExpect(m: MState, td: Todo, tail: Tail, coming: bytes) {
    && PartsOk(td.parts, m.bdry, m.pname, m.level)
    && m.acc == [] && m.inb + coming == Dashed(m.bdry) + Lines(td.parts, m.bdry, tail)
  }

  ghost predicate NextlineExpect(m: MState, td: Todo, tail: Tail, coming: bytes) {
    && PartsOk(td.parts, m.bdry, m.pname, m.level)
    && m.acc + (m.inb + coming) == Lines(td.parts, m.bdry, tail)
    && |m.acc| <= |LineOf(td.parts, tail.close)|
  }

  ghost predicate HeaderExpect(m: MState, td: Todo, tail: Tail, coming: bytes)
    requires td.parts != []
  {
    var h := if m.info.Some? then m.hdr else Init;
    && PartsOk(td.parts, m.bdry, m.pname, m.level) && m.acc == []
    && (m.info.Some? ==> m.info.value == Entries(h.fields))
    && h.phase != Complete && h.phase != Failed
    && Run(h, m.inb + coming) ==
       HState(Complete, NoLine, td.parts[0].headers, BodyText(td.parts[0], m.bdry, After(m, td, tail)), Success)
  }

  ghost predicate PostHeaderExpect(m: MState, td: Todo, tail: Tail, coming: bytes)
    requires td.parts != []
  {
    && PartsOk(td.parts, m.bdry, m.pname, m.level) && m.acc == []
    && m.info == Some(Entries(td.parts[0].headers))
    && m.inb + coming == BodyText(td.parts[0], m.bdry, After(m, td, tail))
  }

  ghost predicate LeafExpect(m: MState, U: bytes, td: Todo, pname: Option<bytes>, tail: Tail, coming: bytes)
    requires td.parts != []
  {
    && td.parts[0].body.Leaf? && Clean(td.parts[0].body.content, m.bdry)
    && Awaits(U, m.inb + coming, td.parts[0].body.content, Delim(m.bdry), After(m, td, tail))
    && PartsOk(td.parts[1..], m.bdry, pname, m.level)
  }

  ghost predicate MixedExpect(m: MState, td: Todo)
    requires td.parts != [] && m.next.Some?
  {
    && m.acc == [] && td.parts[0].body.Multi? && NoCR(td.parts[0].body.close)
    && m.next.value.bdry == td.parts[0].body.bdry && m.next.value.level == m.level + 1
    && m.next.value.status != MfdComplete
    && PartsOk(td.parts[1..], m.bdry, None, m.level)
  }

  /** What follows a nested message: the next delimiter of the outer one. */
  function InnerTail(m: MState, td: Todo, tail: Tail): Tail
    requires td.parts != []
  {
    Tail(if td.parts[0].body.Multi? then td.parts[0].body.close else [],
         Some(Dashed(m.bdry) + After(m, td, tail)))
  }

  /** The rows still to be added. */
  function RowsTodo(m: MState, td: Todo): seq<Param>
    decreases m
  {
    match m.status
    case MfdParam =>
      if td.parts == [] || m.pname.None? || !td.parts[0].body.Leaf? then []
      else [LeafRow(Field(m.pname.value), td.parts[0].body.content, Entries(td.parts[0].headers))]
           + Rows(td.parts[1..], None, m.level)
    case MfdUpload =>
      if td.parts == [] || !td.parts[0].body.Leaf? then []
      else [m.upload.(upload := Some(td.parts[0].body.content))] + Rows(td.parts[1..], m.pname, m.level)
    case MfdMixed =>
      if td.parts == [] || m.next.None? || td.inner.None? then []
      else RowsTodo(m.next.value, td.inner.value) + Rows(td.parts[1..], None, m.level)
    case MfdComplete => []
    case MfdError => []
    case _ => Rows(td.parts, m.pname, m.level)
  }

  // ------------------------------------------------------------ searching for a delimiter

  lemma CleanFront(X: bytes, b: bytes, more: bytes)
    requires Clean(X, b) && NoCR(b)
    ensures !(Dashed(b) <= X + (Delim(b) + more))
  {
    var d, t := Delim(b), X + (Delim(b) + more);
    if |X| < |Dashed(b)| {
      assert t[|X|] == CR;
      assert Dashed(b)[|X|] != CR;
    } else {
      assert !Occurs(d, CRLF + X, 0);
      var k :| 0 <= k < |d| && (CRLF + X)[0 + k] != d[k];
      assert t[k - 2] != Dashed(b)[k - 2];
    }
  }

  lemma DelimIsSimple(b: bytes)
    requires NoCR(b)
    ensures Simple(Delim(b))
  {
    var d := Delim(b);
    forall k | 1 <= k < |d|
      ensures d[k] != d[0]
    {
      if k >= 4 { assert d[k] == b[k - 4]; }
    }
  }

  /** No occurrence, whole or cut off by the end, starts inside a clean content. */
  lemma CleanAt(X: bytes, b: bytes, more: bytes, i: nat)
    requires Clean(X, b) && NoCR(b) && i < |X|
    ensures !MatchAt(Delim(b), X + (Delim(b) + more), i)
  {
    var d := Delim(b);
    var s := X + (d + more);
    if i + |d| <= |X| {
      assert !Occurs(d, CRLF + X, i + 2);
      var k :| 0 <= k < |d| && (CRLF + X)[i + 2 + k] != d[k];
      assert s[i + k] == X[i + k] == (CRLF + X)[i + 2 + k];
    } else {
      DelimIsSimple(b);
      var k := |X| - i;
      assert s[i + k] == d[0] != d[k];
    }
  }

  lemma DelimAt(X: bytes, d: bytes, more: bytes)
    ensures Occurs(d, X + (d + more), |X|)
  {
    forall k | 0 <= k < |d|
      ensures (X + (d + more))[|X| + k] == d[k]
    {
    }
  }

  /** In X, delimiter, more the delimiter is found at the end of X. */
  lemma CleanCut(X: bytes, b: bytes, more: bytes)
    requires Clean(X, b) && NoCR(b)
    ensures Cut(Delim(b), X + (Delim(b) + more)) == |X|
  {
    var d := Delim(b);
    DelimAt(X, d, more);
    forall i: nat | i < |X|
      ensures !MatchAt(d, X + (d + more), i)
    {
      CleanAt(X, b, more, i);
    }
    CutIs(d, X + (d + more), |X|);
  }

  lemma NoStart(d: bytes, s: bytes, i: nat)
    requires i < |s| && d != [] && s[i] != d[0]
    ensures !MatchAt(d, s, i)
  {
    assert s[i + 0] != d[0];
  }

  lemma LineCut(X: bytes, more: bytes)
    requires NoCR(X)
    ensures Cut(CRLF, X + (CRLF + more)) == |X|
  {
    var s := X + (CRLF + more);
    DelimAt(X, CRLF, more);
    forall i: nat | i < |X|
      ensures !MatchAt(CRLF, s, i)
    {
      assert s[i] == X[i] && X[i] in X;
      NoStart(CRLF, s, i);
    }
    CutIs(CRLF, s, |X|);
  }

  /** Where the delimiter lies in what is ahead of the part of X already read. */
  lemma CutAhead(U: bytes, ahead: bytes, X: bytes, d: bytes, more: bytes)
    requires Awaits(U, ahead, X, d, more) && Cut(d, X + (d + more)) == |X|
    ensures Cut(d, ahead) == |X| - |U| && Occurs(d, ahead, |X| - |U|)
  {
    AwaitedRest(U, ahead, X, d, more);
    assert X + (d + more) == U + ahead;
    CutShift(d, U, ahead);
    DelimAt(X[|U|..], d, more);
  }

  /** A search of what the parser holds, when X, delimiter, more is under way: a hit
      completes X, and a miss leaves the delimiter ahead. */
  lemma SearchAwaited(U: bytes, S: bytes, coming: bytes, X: bytes, d: bytes, more: bytes, eos: bool, m: nat, st: Status)
    requires Awaits(U, S + coming, X, d, more) && Cut(d, X + (d + more)) == |X| && Simple(d)
    requires SplitOutcome(d, S, eos, m, st) && (eos ==> coming == [])
    ensures st == Success || (st == Incomplete && !eos)
    ensures st == Success ==> U + S[..m] == X && S[m + |d|..] + coming == more
    ensures st == Incomplete ==> Awaits(U + S[..m], S[m..] + coming, X, d, more)
  {
    CutAhead(U, S + coming, X, d, more);
    CutExtends(d, S, coming);
    if eos { assert S + coming == S; }
    if st == Success {
      HitCompletes(U, S, coming, X, d, more, m);
    } else {
      Regroup(U, S, coming, m);
    }
  }

  lemma Regroup(U: bytes, S: bytes, coming: bytes, m: nat)
    requires m <= |S|
    ensures (U + S[..m]) + (S[m..] + coming) == U + (S + coming)
  {
    assert S == S[..m] + S[m..];
  }

  lemma AwaitedRest(U: bytes, ahead: bytes, X: bytes, d: bytes, more: bytes)
    requires Awaits(U, ahead, X, d, more)
    ensures U == X[..|U|] && ahead == X[|U|..] + (d + more)
  {
    assert (U + ahead)[..|U|] == U;
    assert (X + (d + more))[..|U|] == X[..|U|];
    assert (U + ahead)[|U|..] == ahead;
    assert (X + (d + more))[|U|..] == X[|U|..] + (d + more);
  }

  lemma HitCompletes(U: bytes, S: bytes, coming: bytes, X: bytes, d: bytes, more: bytes, m: nat)
    requires Awaits(U, S + coming, X, d, more) && |U| + m == |X| && m + |d| <= |S|
    ensures U + S[..m] == X && S[m + |d|..] + coming == more
  {
    AwaitedRest(U, S + coming, X, d, more);
    var r := X[|U|..];
    assert (S + coming)[..m] == S[..m];
    assert (r + (d + more))[..m] == r;
    assert (S + coming)[m + |d|..] == S[m + |d|..] + coming;
    assert (r + (d + more))[m + |d|..] == more;
    assert X == X[..|U|] + r;
  }

  // ------------------------------------------------------------ MFD_INIT

  lemma PrefixMatches(d: bytes, S: bytes, coming: bytes, more: bytes)
    requires S + coming == d + more
    ensures MatchAt(d, S, 0)
    ensures |d| <= |S| ==> S[|d|..] + coming == more
    ensures coming == [] ==> |d| <= |S|
  {
    forall k | 0 <= k < |d| && 0 + k < |S|
      ensures S[0 + k] == d[k]
    {
      assert (S + coming)[k] == (d + more)[k];
    }
    if |d| <= |S| {
      assert (S + coming)[|d|..] == S[|d|..] + coming;
      assert (d + more)[|d|..] == more;
    }
  }

  lemma InitStep(m: MState, td: Todo, tail: Tail, coming: bytes, n: nat, st: Status)
    requires m.status == MfdInit && Expect(m, td, tail, coming) && (m.eos ==> coming == [])
    requires SplitOutcome(Dashed(m.bdry), m.inb, m.eos, n, st)
    ensures n == 0 && (st == Success || (st == Incomplete && !m.eos))
    ensures st == Success ==>
              Expect(m.(status := MfdNextline, inb := m.inb[|Dashed(m.bdry)|..]), td, tail, coming)
  {
    PrefixMatches(Dashed(m.bdry), m.inb, coming, Lines(td.parts, m.bdry, tail));
    if st == Success {
      assert [] + (m.inb[|Dashed(m.bdry)|..] + coming) == Lines(td.parts, m.bdry, tail);
    }
  }

  // ------------------------------------------------------------ MFD_NEXTLINE

  /** What follows the CRLF that ends the delimiter line. */
  function BehindLine(m: MState, td: Todo, tail: Tail): bytes
    requires td.parts == [] ==> tail.after.Some?
  {
    if td.parts == [] then tail.after.value
    else
      BlockText(td.parts[0].headers) + td.parts[0].blank
      + BodyText(td.parts[0], m.bdry, After(m, td, tail))
  }

  lemma LinesSplit(m: MState, td: Todo, tail: Tail)
    requires td.parts == [] ==> tail.after.Some?
    ensures Lines(td.parts, m.bdry, tail) == LineOf(td.parts, tail.close) + (CRLF + BehindLine(m, td, tail))
  {
  }

  /** What is required of the part at the front. */
  lemma FirstPart(parts: seq<Part>, b: bytes, pname: Option<bytes>, level: nat)
    requires parts != [] && PartsOk(parts, b, pname, level)
    ensures HeadersOk(parts[0]) && PartOk(parts[0], b, pname, level)
    ensures PartsOk(parts[1..], b, NextName(KindOf(parts[0], pname, level), pname), level)
  {
  }

  lemma LineHasNoCR(m: MState, td: Todo, tail: Tail)
    requires PartsOk(td.parts, m.bdry, m.pname, m.level) && TailOk(tail)
    ensures NoCR(LineOf(td.parts, tail.close))
    ensures (DASHES <= LineOf(td.parts, tail.close)) <==> td.parts == []
  {
  }

  /** The line that ends the whole message, with no CRLF behind it. */
  lemma LastLine(m: MState, td: Todo, tail: Tail, coming: bytes, n: nat, st: Status)
    requires m.status == MfdNextline && Expect(m, td, tail, coming)
    requires SplitOutcome(CRLF, m.inb, m.eos, n, st)
    requires td.parts == [] && tail.after.None?
    ensures st == if m.eos then Eof else Incomplete
    ensures st == Incomplete ==> NextlineExpect(m.(acc := m.acc + m.inb[..n], inb := m.inb[n..]), td, tail, coming)
  {
    var line := DASHES + tail.close;
    LineHasNoCR(m, td, tail);
    assert m.acc + (m.inb + coming) == line;
    forall i | 0 <= i < |m.inb|
      ensures m.inb[i] != CR
    {
      assert m.inb[i] == line[|m.acc| + i] && line[|m.acc| + i] in line;
    }
    assert st != Success by {
      if n < |m.inb| { NoStart(CRLF, m.inb, n); }
    }
    Regroup(m.acc, m.inb, coming, n);
  }

  lemma NextlineSearch(m: MState, td: Todo, tail: Tail, coming: bytes, n: nat, st: Status)
    requires NextlineExpect(m, td, tail, coming) && TailOk(tail) && (m.eos ==> coming == [])
    requires SplitOutcome(CRLF, m.inb, m.eos, n, st) && (td.parts == [] ==> tail.after.Some?)
    ensures st == Success || (st == Incomplete && !m.eos)
    ensures st == Success ==>
              m.acc + m.inb[..n] == LineOf(td.parts, tail.close) && m.inb[n + 2..] + coming == BehindLine(m, td, tail)
    ensures st == Incomplete ==>
              NextlineExpect(m.(acc := m.acc + m.inb[..n], inb := m.inb[n..]), td, tail, coming)
  {
    var line, more := LineOf(td.parts, tail.close), BehindLine(m, td, tail);
    NextlineAwaits(m, td, tail, coming, line, more);
    SearchAwaited(m.acc, m.inb, coming, line, CRLF, more, m.eos, n, st);
    if st == Incomplete { NextlineMiss(m, td, tail, coming, n, line, more); }
  }

  lemma NextlineAwaits(m: MState, td: Todo, tail: Tail, coming: bytes, line: bytes, more: bytes)
    requires NextlineExpect(m, td, tail, coming) && TailOk(tail) && (td.parts == [] ==> tail.after.Some?)
    requires line == LineOf(td.parts, tail.close) && more == BehindLine(m, td, tail)
    ensures Awaits(m.acc, m.inb + coming, line, CRLF, more)
    ensures Cut(CRLF, line + (CRLF + more)) == |line| && Simple(CRLF)
  {
    LinesSplit(m, td, tail);
    LineHasNoCR(m, td, tail);
    LineCut(line, more);
  }

  lemma NextlineMiss(m: MState, td: Todo, tail: Tail, coming: bytes, n: nat, line: bytes, more: bytes)
    requires NextlineExpect(m, td, tail, coming) && TailOk(tail) && (td.parts == [] ==> tail.after.Some?)
    requires line == LineOf(td.parts, tail.close) && more == BehindLine(m, td, tail) && n <= |m.inb|
    requires Awaits(m.acc + m.inb[..n], m.inb[n..] + coming, line, CRLF, more)
    ensures NextlineExpect(m.(acc := m.acc + m.inb[..n], inb := m.inb[n..]), td, tail, coming)
  {
    LinesSplit(m, td, tail);
  }

  /** The delimiter line is complete: the message ends, or the next part starts. */
  lemma NextlineStep(m: MState, td: Todo, tail: Tail, coming: bytes, rest: bytes, line: bytes)
    requires m.status == MfdNextline && Expect(m, td, tail, coming) && (td.parts == [] ==> tail.after.Some?)
    requires line == LineOf(td.parts, tail.close) && rest + coming == BehindLine(m, td, tail)
    ensures (DASHES <= line) <==> td.parts == []
    ensures td.parts != [] ==> Expect(m.(status := MfdHeader, inb := rest, acc := [], info := None), td, tail, coming)
  {
    LineHasNoCR(m, td, tail);
    if td.parts != [] {
      FirstPart(td.parts, m.bdry, m.pname, m.level);
      BlockParses(td.parts[0].headers, td.parts[0].blank, BodyText(td.parts[0], m.bdry, After(m, td, tail)));
    }
  }

  // ------------------------------------------------------------ MFD_HEADER

  lemma HeaderStep(m: MState, td: Todo, tail: Tail, coming: bytes,
                   h: HState, rows: seq<Entry>, back: bytes, backEos: bool, st: Status)
    requires m.status == MfdHeader && Expect(m, td, tail, coming) && (m.eos ==> coming == [])
    requires
      var h0 := if m.info.Some? then m.hdr else Init;
      var rows0 := if m.info.Some? then m.info.value else [];
      Parsed(h0, m.inb, m.eos, rows0, h, rows, back, backEos, st)
    ensures st == Success || (st == Incomplete && !m.eos)
    ensures st == Success ==>
              Expect(m.(status := MfdPostHeader, inb := back, eos := backEos, info := Some(rows), hdr := h), td, tail, coming)
    ensures st == Incomplete ==> Expect(m.(inb := back, eos := backEos, info := Some(rows), hdr := h), td, tail, coming)
  {
    var h0 := if m.info.Some? then m.hdr else Init;
    var r := Run(h0, m.inb);
    RunConcat(h0, m.inb, coming);
    assert Entries(Init.fields) == [];
    RunFieldsGrow(h0, m.inb);
    EntriesJoined(h0, r, if m.info.Some? then m.info.value else [], rows);
    if r.phase == Failed {
      RunFailed(r, coming);
    } else if r.phase == Complete {
      RunDone(r, coming);
    } else {
      assert m.eos ==> Run(r, coming) == r;
      assert [] + coming == coming;
    }
  }

  lemma EntriesJoined(h0: HState, r: HState, rows0: seq<Entry>, rows: seq<Entry>)
    requires Added(rows0, h0, rows, r) && rows0 == Entries(h0.fields)
    requires r.fields[..|h0.fields|] == h0.fields
    ensures rows == Entries(r.fields)
  {
    EntriesJoin(h0.fields, r.fields);
  }

  // ------------------------------------------------------------ MFD_POST_HEADER

  /** What brigade_start_string found out about the brigade. */
  ghost predicate StartOutcome(d: bytes, S: bytes, eos: bool, st: Status) {
    && st in {Success, Incomplete, Eof, General}
    && (st == Success ==> d <= S)
    && (st == Incomplete ==> MatchAt(d, S, 0) && !eos)
    && (st == Eof ==> eos && |S| < |d|)
    && (st == General ==> !MatchAt(d, S, 0))
  }

  /** The brigade after the CRLF has been put back in front of a part without a body. */
  function Reopened(S: bytes, st: Status): bytes {
    if st == Success then CRLF + S else S
  }

  lemma PrefixOfBoth(d: bytes, S: bytes, coming: bytes, t: bytes)
    requires S + coming == t
    ensures d <= S ==> d <= t
    ensures coming == [] && d <= t ==> d <= S
    ensures d <= t ==> MatchAt(d, S, 0)
  {
    assert S <= t;
    if d <= t {
      forall k | 0 <= k < |d| && 0 + k < |S|
        ensures S[0 + k] == d[k]
      {
        assert t[k] == d[k] && t[k] == S[k];
      }
    }
  }

  /** A part without a body: its delimiter is complete again. */
  lemma BareReopened(m: MState, td: Todo, tail: Tail, coming: bytes, st: Status)
    requires m.status == MfdPostHeader && Expect(m, td, tail, coming) && (m.eos ==> coming == [])
    requires StartOutcome(Dashed(m.bdry), m.inb, m.eos, st) && st != Incomplete
    requires td.parts[0].body.Leaf? && td.parts[0].body.bare
    ensures Awaits([], Reopened(m.inb, st) + coming, [], Delim(m.bdry), After(m, td, tail))
  {
    var more := After(m, td, tail);
    PrefixOfBoth(Dashed(m.bdry), m.inb, coming, m.inb + coming);
    assert m.inb + coming == Dashed(m.bdry) + more;
    Assoc(CRLF, m.inb, coming);
    Assoc(CRLF, Dashed(m.bdry), more);
    assert [] + (Delim(m.bdry) + more) == Delim(m.bdry) + more;
    assert [] + (Reopened(m.inb, st) + coming) == Reopened(m.inb, st) + coming;
  }

  lemma ContentNotReopened(m: MState, td: Todo, tail: Tail, coming: bytes, st: Status)
    requires m.status == MfdPostHeader && Expect(m, td, tail, coming)
    requires StartOutcome(Dashed(m.bdry), m.inb, m.eos, st) && st != Incomplete
    requires td.parts[0].body.Leaf? && !td.parts[0].body.bare && Clean(td.parts[0].body.content, m.bdry)
    ensures Awaits([], Reopened(m.inb, st) + coming, td.parts[0].body.content, Delim(m.bdry), After(m, td, tail))
  {
    CleanFront(td.parts[0].body.content, m.bdry, After(m, td, tail));
    PrefixOfBoth(Dashed(m.bdry), m.inb, coming, m.inb + coming);
    assert st != Success;
    assert [] + (m.inb + coming) == m.inb + coming;
  }

  /** With or without a body of its own, the content is followed by a full delimiter. */
  lemma LeafReopened(m: MState, td: Todo, tail: Tail, coming: bytes, st: Status)
    requires m.status == MfdPostHeader && Expect(m, td, tail, coming) && (m.eos ==> coming == [])
    requires StartOutcome(Dashed(m.bdry), m.inb, m.eos, st) && st != Incomplete
    requires td.parts[0].body.Leaf?
    ensures Clean(td.parts[0].body.content, m.bdry)
    ensures Awaits([], Reopened(m.inb, st) + coming, td.parts[0].body.content, Delim(m.bdry), After(m, td, tail))
  {
    FirstPart(td.parts, m.bdry, m.pname, m.level);
    if td.parts[0].body.bare {
      BareReopened(m, td, tail, coming, st);
    } else {
      ContentNotReopened(m, td, tail, coming, st);
    }
  }

  lemma NotOuter(b: bytes, ib: bytes, line: bytes, more: bytes)
    requires NoCR(b) && !(b <= ib + line)
    ensures !(Dashed(b) <= Dashed(ib) + (line + (CRLF + more)))
  {
    var s := ib + line;
    var t := Dashed(ib) + (line + (CRLF + more));
    assert t == DASHES + (s + (CRLF + more));
    if |b| <= |s| {
      var k :| 0 <= k < |b| && b[k] != s[k];
      assert t[k + 2] != Dashed(b)[k + 2];
    } else {
      assert t[|s| + 2] == CR && Dashed(b)[|s| + 2] == b[|s|] && b[|s|] in b;
    }
  }

  /** A nested message is not mistaken for an empty part. */
  lemma NestedReopened(m: MState, td: Todo, tail: Tail, coming: bytes, st: Status)
    requires m.status == MfdPostHeader && Expect(m, td, tail, coming)
    requires StartOutcome(Dashed(m.bdry), m.inb, m.eos, st) && st != Incomplete
    requires td.parts[0].body.Multi?
    ensures Reopened(m.inb, st) == m.inb
  {
    var b, body := m.bdry, td.parts[0].body;
    FirstPart(td.parts, b, m.pname, m.level);
    var it := InnerTail(m, td, tail);
    var im := m.(bdry := body.bdry);
    var itd := Todo(body.parts, None);
    LinesSplit(im, itd, it);
    NotOuter(b, body.bdry, LineOf(body.parts, body.close), BehindLine(im, itd, it));
    PrefixOfBoth(Dashed(b), m.inb, coming, m.inb + coming);
  }

  /** The context create_multipart_context makes for a nested message. */
  function Fresh(b: bytes, pname: Option<bytes>, level: nat): MState {
    MState(MfdInit, level, b, [], false, [], Init, None, pname, Param([], [], None, [], Ascii, false), None)
  }

  function AsField(m: MState, k: Kind, S: bytes): MState
    requires k.Field?
  {
    m.(status := MfdParam, inb := S, pname := Some(k.name))
  }

  function AsUpload(m: MState, k: Kind, S: bytes): MState
    requires k.Upload? && m.info.Some?
  {
    m.(status := MfdUpload, inb := S, upload := Param(k.name, k.filename, Some([]), m.info.value, Ascii, true))
  }

  function AsNested(m: MState, k: Kind, S: bytes): MState
    requires k.Nested?
  {
    m.(status := MfdMixed, inb := S, next := Some(Fresh(k.bdry, Some(k.pname), m.level + 1)))
  }

  lemma PostHeaderLeaf(m: MState, td: Todo, tail: Tail, coming: bytes, st: Status)
    requires m.status == MfdPostHeader && Expect(m, td, tail, coming) && (m.eos ==> coming == [])
    requires StartOutcome(Dashed(m.bdry), m.inb, m.eos, st) && st != Incomplete
    requires td.parts[0].body.Leaf?
    ensures
      var k := Classify(m.info.value, m.pname, m.level);
      && (k.Field? || k.Upload?)
      && (k.Field? ==> Expect(AsField(m, k, Reopened(m.inb, st)), td, tail, coming))
      && (k.Upload? ==> Expect(AsUpload(m, k, Reopened(m.inb, st)), td, tail, coming))
  {
    FirstPart(td.parts, m.bdry, m.pname, m.level);
    LeafReopened(m, td, tail, coming, st);
  }

  lemma PostHeaderNested(m: MState, td: Todo, tail: Tail, coming: bytes, st: Status)
    requires m.status == MfdPostHeader && Expect(m, td, tail, coming)
    requires StartOutcome(Dashed(m.bdry), m.inb, m.eos, st) && st != Incomplete
    requires td.parts[0].body.Multi?
    ensures
      var k := Classify(m.info.value, m.pname, m.level);
      && k.Nested?
      && Expect(AsNested(m, k, Reopened(m.inb, st)), td.(inner := Some(Todo(td.parts[0].body.parts, None))), tail, coming)
  {
    NestedReopened(m, td, tail, coming, st);
    NestedExpected(m, td, tail, coming);
  }

  lemma NestedExpected(m: MState, td: Todo, tail: Tail, coming: bytes)
    requires m.status == MfdPostHeader && Expect(m, td, tail, coming) && td.parts[0].body.Multi?
    ensures
      var k := Classify(m.info.value, m.pname, m.level);
      && k.Nested?
      && Expect(AsNested(m, k, m.inb), td.(inner := Some(Todo(td.parts[0].body.parts, None))), tail, coming)
  {
    FirstPart(td.parts, m.bdry, m.pname, m.level);
    assert [] + (m.inb + coming) == m.inb + coming;
  }

  /** Classifying the part changes nothing in the rows to come. */
  lemma RowsUnfold(m: MState, td: Todo)
    requires m.status == MfdPostHeader && td.parts != [] && m.info == Some(Entries(td.parts[0].headers))
    ensures
      var k := Classify(m.info.value, m.pname, m.level);
      RowsTodo(m, td) == PartRows(td.parts[0], k, m.level) + Rows(td.parts[1..], NextName(k, m.pname), m.level)
  {
  }

  lemma FieldRows(m: MState, td: Todo, k: Kind, S: bytes)
    requires td.parts != [] && td.parts[0].body.Leaf? && k.Field?
    ensures RowsTodo(AsField(m, k, S), td) == PartRows(td.parts[0], k, m.level) + Rows(td.parts[1..], None, m.level)
  {
  }

  lemma UploadRows(m: MState, td: Todo, k: Kind, S: bytes)
    requires td.parts != [] && td.parts[0].body.Leaf? && k.Upload? && m.info == Some(Entries(td.parts[0].headers))
    ensures RowsTodo(AsUpload(m, k, S), td) == PartRows(td.parts[0], k, m.level) + Rows(td.parts[1..], m.pname, m.level)
  {
  }

  lemma NestedRows(m: MState, td: Todo, k: Kind, S: bytes)
    requires td.parts != [] && td.parts[0].body.Multi? && k.Nested?
    ensures RowsTodo(AsNested(m, k, S), td.(inner := Some(Todo(td.parts[0].body.parts, None))))
         == PartRows(td.parts[0], k, m.level) + Rows(td.parts[1..], None, m.level)
  {
  }

  // ------------------------------------------------------------ MFD_PARAM, MFD_UPLOAD, MFD_MIXED

  lemma LeafSearch(m: MState, U: bytes, td: Todo, pname: Option<bytes>, tail: Tail, coming: bytes, n: nat, st: Status)
    requires NoCR(m.bdry) && td.parts != [] && LeafExpect(m, U, td, pname, tail, coming)
    requires SplitOutcome(Delim(m.bdry), m.inb, m.eos, n, st) && (m.eos ==> coming == [])
    ensures st == Success || (st == Incomplete && !m.eos)
    ensures st == Success ==>
              && U + m.inb[..n] == td.parts[0].body.content
              && m.inb[n + |Delim(m.bdry)|..] + coming == After(m, td, tail)
    ensures st == Incomplete ==> LeafExpect(m.(inb := m.inb[n..]), U + m.inb[..n], td, pname, tail, coming)
  {
    var X := td.parts[0].body.content;
    var more := After(m, td, tail);
    CleanCut(X, m.bdry, more);
    DelimIsSimple(m.bdry);
    SearchAwaited(U, m.inb, coming, X, Delim(m.bdry), more, m.eos, n, st);
  }

  /** The parser stands behind a part's delimiter. */
  lemma PartDone(m: MState, td: Todo, pname: Option<bytes>, tail: Tail, coming: bytes, rest: bytes)
    requires NoCR(m.bdry) && m.bdry != [] && TailOk(tail) && td.parts != []
    requires rest + coming == After(m, td, tail) && PartsOk(td.parts[1..], m.bdry, pname, m.level)
    ensures Expect(m.(status := MfdNextline, inb := rest, acc := [], pname := pname), Todo(td.parts[1..], None), tail, coming)
  {
    assert [] + (rest + coming) == rest + coming;
  }

  /** A nested message is finished: the outer parser looks for its own boundary again. */
  lemma MixedDone(m: MState, td: Todo, tail: Tail, coming: bytes, back: bytes, eos: bool)
    requires m.status == MfdMixed && Expect(m, td, tail, coming)
    requires back + coming == InnerTail(m, td, tail).after.value
    ensures Expect(m.(status := MfdInit, inb := back, eos := eos, pname := None), Todo(td.parts[1..], None), tail, coming)
  {
  }
}
