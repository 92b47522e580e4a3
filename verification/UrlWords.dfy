/** The words of the streaming urlencoded parser (library/parser_urlencoded.c): what it makes
    of a body, word by word, and which bodies it refuses. */
module UrlWords {
  import opened Bytes
  import opened QueryStrings
  import opened UrlMachine

  /** Where the first '=' is, or the length. */
  function EqualsAt(s: bytes): (k: nat)
    ensures k <= |s| && forall i :: 0 <= i < k ==> s[i] != EQUALS
    ensures k < |s| ==> s[k] == EQUALS
  {
    EqualsFrom(s, 0)
  }

  function EqualsFrom(s: bytes, i: nat): (k: nat)
    requires i <= |s|
    ensures i <= k <= |s| && forall j :: i <= j < k ==> s[j] != EQUALS
    ensures k < |s| ==> s[k] == EQUALS
    decreases |s| - i
  {
    if i == |s| || s[i] == EQUALS then i else EqualsFrom(s, i + 1)
  }

  /** Where the first separator is, or the length. */
  function SepAt(s: bytes): (e: nat)
    ensures e <= |s| && forall i :: 0 <= i < e ==> !IsSeparator(s[i])
    ensures e < |s| ==> IsSeparator(s[e])
  {
    SepFrom(s, 0)
  }

  function SepFrom(s: bytes, i: nat): (e: nat)
    requires i <= |s|
    ensures i <= e <= |s| && forall j :: i <= j < e ==> !IsSeparator(s[j])
    ensures e < |s| ==> IsSeparator(s[e])
    decreases |s| - i
  {
    if i == |s| || IsSeparator(s[i]) then i else SepFrom(s, i + 1)
  }

  /** The raw value of the first word. */
  function ValueOf(s: bytes): bytes
    requires EqualsAt(s) < |s|
  {
    var v := s[EqualsAt(s) + 1..];
    v[..SepAt(v)]
  }

  function NameOf(s: bytes): bytes { s[..EqualsAt(s)] }

  /** What stands behind the separator of the first word. */
  function RestOf(s: bytes): (r: Option<bytes>)
    requires EqualsAt(s) < |s|
    ensures r.Some? ==> |r.value| < |s|
  {
    var v := s[EqualsAt(s) + 1..];
    if SepAt(v) < |v| then Some(v[SepAt(v) + 1..]) else None
  }

  /** The first word of the streaming parser: its name is all up to the first '=', and
      separators in it belong to it. */
  function Taken(s: bytes): Outcome
    requires EqualsAt(s) < |s|
  {
    DecodeWord(NameOf(s), ValueOf(s))
  }

  ghost function Stream(s: bytes, rows: seq<Param>): UState { AtEos(Run(Start(rows), s)) }

  // ------------------------------------------------------------ one word at a time

  /** A body without '=' is dropped. */
  lemma NoWord(s: bytes, rows: seq<Param>)
    requires EqualsAt(s) == |s|
    ensures Stream(s, rows) == Start(rows).(name := s)
  {
    assert s[..|s|] == s && [] + s == s;
    RunName(Start(rows), s);
  }

  lemma RunWord(rows: seq<Param>, n: bytes, v: bytes, rest: bytes)
    requires EQUALS !in n && forall i :: 0 <= i < |v| ==> !IsSeparator(v[i])
    ensures Run(Start(rows), n + ([EQUALS] + (v + rest))) == Run(UState(UrlValue, n, v, rows, Success), rest)
  {
    var t := [EQUALS] + (v + rest);
    RunConcat(Start(rows), n, t);
    RunName(Start(rows), n);
    assert [] + n == n;
    assert t[1..] == v + rest;
    RunSplit(UState(UrlValue, n, [], rows, Success), v, rest);
  }

  lemma RunSplit(h: UState, v: bytes, rest: bytes)
    requires h.status == UrlValue && h.val == [] && forall i :: 0 <= i < |v| ==> !IsSeparator(v[i])
    ensures Run(h, v + rest) == Run(h.(val := v), rest)
  {
    RunConcat(h, v, rest);
    RunValueOnly(h, v);
  }

  lemma RunValueOnly(h: UState, v: bytes)
    requires h.status == UrlValue && h.val == [] && forall i :: 0 <= i < |v| ==> !IsSeparator(v[i])
    ensures Run(h, v) == h.(val := v)
  {
    RunValue(h, v);
    assert [] + v == v;
  }

  /** A word has been taken, and the parser goes on behind it. */
  ghost predicate Ended(taken: Outcome, rest: Option<bytes>, rows: seq<Param>, h: UState) {
    match taken
    case Refused(st) => h.status == UrlError && h.err == st && h.rows == rows
    case Row(p) =>
      match rest
      case None => h.status == UrlComplete && h.rows == rows + [p]
      case Some(r) => h == Stream(r, rows + [p])
  }

  lemma ValueEnds(h: UState, rest: bytes)
    requires h.status == UrlValue && (rest != [] ==> IsSeparator(rest[0]))
    ensures
      AtEos(Run(h, rest)) == if rest == [] then UrlMachine.FinishWord(h, UrlComplete)
                             else AtEos(Run(UrlMachine.FinishWord(h, UrlName), rest[1..]))
  {
  }

  /** What the streaming parser makes of a body with '=' in it. */
  lemma StreamsWord(s: bytes, rows: seq<Param>)
    requires EqualsAt(s) < |s|
    ensures Ended(Taken(s), RestOf(s), rows, Stream(s, rows))
  {
    var v := s[EqualsAt(s) + 1..];
    CutAt(s, EqualsAt(s));
    NoneIn(s, EqualsAt(s));
    WordStreams(s, NameOf(s), v, SepAt(v), rows);
  }

  lemma CutAt(s: bytes, k: nat)
    requires k < |s|
    ensures s == s[..k] + ([s[k]] + s[k + 1..])
  {
  }

  lemma NoneIn(s: bytes, k: nat)
    requires k <= |s| && forall i :: 0 <= i < k ==> s[i] != EQUALS
    ensures EQUALS !in s[..k]
  {
  }

  lemma WordStreams(s: bytes, n: bytes, v: bytes, e: nat, rows: seq<Param>)
    requires s == n + ([EQUALS] + v) && EQUALS !in n && e == SepAt(v)
    ensures Ended(DecodeWord(n, v[..e]), if e < |v| then Some(v[e + 1..]) else None, rows, Stream(s, rows))
  {
    assert v == v[..e] + v[e..];
    RunWord(rows, n, v[..e], v[e..]);
    WordTaken(n, v, e, rows);
  }

  lemma WordTaken(n: bytes, v: bytes, e: nat, rows: seq<Param>)
    requires e <= |v| && (e < |v| ==> IsSeparator(v[e]))
    ensures Ended(DecodeWord(n, v[..e]), if e < |v| then Some(v[e + 1..]) else None, rows,
                  AtEos(Run(UState(UrlValue, n, v[..e], rows, Success), v[e..])))
  {
    var h := UState(UrlValue, n, v[..e], rows, Success);
    if e < |v| {
      assert v[e..][1..] == v[e + 1..];
      ValueEnds(h, v[e..]);
      if DecodeWord(n, v[..e]).Refused? {
        RunOver(UrlMachine.FinishWord(h, UrlName), v[e + 1..]);
      }
    }
  }

  lemma {:induction false} RowsGrow(h: UState, s: bytes)
    ensures h.rows <= Run(h, s).rows <= AtEos(Run(h, s)).rows
    decreases |s|
  {
    if s != [] { RowsGrow(Step(h, s[0]), s[1..]); }
  }

  // ------------------------------------------------------------ the bodies that are refused

  /** The streaming parser refuses the body for this reason: its words can be decoded up to
      one that the reason applies to. */
  ghost predicate RefusedFor(s: bytes, st: Status)
    decreases |s|
  {
    EqualsAt(s) < |s|
    && (WordStops(NameOf(s), ValueOf(s), st)
        || (WordDecodes(NameOf(s), ValueOf(s)) && RestOf(s).Some? && RefusedFor(RestOf(s).value, st)))
  }

  ghost predicate EndsIn(h: UState, st: Status) { h.status == UrlError && h.err == st }

  /** Whatever the body, the parser ends in error exactly with the status the body is
      refused for. */
  lemma {:induction false} RefusedExactly(s: bytes, rows: seq<Param>, st: Status)
    requires st != Success
    ensures EndsIn(Stream(s, rows), st) <==> RefusedFor(s, st)
    decreases |s|
  {
    if EqualsAt(s) == |s| {
      NoWord(s, rows);
    } else {
      StreamsWord(s, rows);
      WordStopsExactly(NameOf(s), ValueOf(s), st);
      if Taken(s).Row? && RestOf(s).Some? {
        RefusedExactly(RestOf(s).value, rows + [Taken(s).p], st);
      }
    }
  }
}
