/** When the streaming urlencoded parser and the batch parser of query strings agree on a
    body (library/parser_urlencoded.c, library/param.c). */
module UrlAgreement {
  import opened Bytes
  import opened UrlCodec
  import opened QueryStrings
  import opened UrlMachine
  import opened UrlWords

  predicate NoNul(s: bytes) { forall i :: 0 <= i < |s| ==> s[i] != 0 }

  predicate OnlySeparators(s: bytes) { forall i :: 0 <= i < |s| ==> IsSeparator(s[i]) }

  /** How many separators s begins with. */
  function Lead(s: bytes): (k: nat)
    ensures k <= |s| && OnlySeparators(s[..k])
    ensures k < |s| ==> !IsSeparator(s[k])
  {
    if s == [] || !IsSeparator(s[0]) then 0 else Lead(s[1..]) + 1
  }

  function FirstWordOf(s: bytes): bytes { s[..WordEnd(s, 0)] }

  /** name=value with a nonempty name */
  predicate IsField(w: bytes) { 0 < EqualsAt(w) < |w| }

  /** Only name=value words; nothing but separators may follow the last. */
  predicate Fields(s: bytes)
    decreases |s|
  {
    var e := WordEnd(s, 0);
    OnlySeparators(s) || (IsField(s[..e]) && (e == |s| || Fields(s[e + 1..])))
  }

  /** Both parsers refuse their first word, for the same reason. */
  ghost predicate RefusedAlike(s: bytes) {
    EqualsAt(s) < |s| &&
    var w := FirstWordOf(s[Lead(s)..]);
    exists st :: WordStops(NameOf(s), ValueOf(s), st) && WordStops(RawName(w), RawValue(w), st)
  }

  lemma RefusedAlikeIs(s: bytes)
    ensures RefusedAlike(s) <==>
              EqualsAt(s) < |s| && Taken(s).Refused? && WordRow(FirstWordOf(s[Lead(s)..])) == Taken(s)
  {
    if EqualsAt(s) < |s| {
      var w := FirstWordOf(s[Lead(s)..]);
      SameRefusal(NameOf(s), ValueOf(s), RawName(w), RawValue(w));
    }
  }

  lemma SameRefusal(n: bytes, v: bytes, n': bytes, v': bytes)
    ensures (exists st :: WordStops(n, v, st) && WordStops(n', v', st))
       <==> DecodeWord(n, v).Refused? && DecodeWord(n', v') == DecodeWord(n, v)
  {
    forall st | WordStops(n, v, st) && WordStops(n', v', st)
      ensures DecodeWord(n, v) == Refused(st) && DecodeWord(n', v') == Refused(st)
    {
      WordStopsExactly(n, v, st);
      WordStopsExactly(n', v', st);
    }
    if DecodeWord(n, v).Refused? {
      WordStopsExactly(n, v, DecodeWord(n, v).st);
      WordStopsExactly(n', v', DecodeWord(n, v).st);
    }
  }

  /** Only name=value words up to the end, to a word that cannot be decoded, or to one that
      is refused by both. */
  ghost predicate Alike(s: bytes)
    decreases |s|
  {
    var e := WordEnd(s, 0);
    var w := s[..e];
    OnlySeparators(s)
    || if IsField(w) then e == |s| || WordRow(w).Refused? || Alike(s[e + 1..]) else RefusedAlike(s)
  }

  /** What a whole body leads to, and what the batch parser answers, are the same status
      and the same rows. */
  ghost predicate Agrees(h: UState, a: Answer, rows0: seq<Param>) {
    h.rows == rows0 + a.rows && if h.status == UrlError then h.err == a.st else a.st == Success
  }

  lemma EndIsSeparator(s: bytes, e: nat)
    requires e < |s| && EndsWord(s[e]) && NoNul(s)
    ensures IsSeparator(s[e])
  {
  }

  // ------------------------------------------------------------ the batch side

  /** The first word of a body, and the rest. */
  lemma QuerySteps(s: bytes)
    ensures Query(s) == WordThen(FirstWordOf(s), Behind(s, WordEnd(s, 0)))
  {
    FirstWord(s, 0, WordEnd(s, 0));
    assert s[0..] == s;
  }

  lemma {:induction false} QuerySkips(s: bytes)
    requires NoNul(s)
    ensures Query(s) == Query(s[Lead(s)..])
    decreases |s|
  {
    if Lead(s) == 0 {
      assert s[0..] == s;
    } else {
      QuerySteps(s);
      QuerySkips(s[1..]);
      assert s[1..][Lead(s[1..])..] == s[Lead(s)..];
    }
  }

  lemma {:induction false} LeadOfAll(s: bytes)
    ensures OnlySeparators(s) <==> Lead(s) == |s|
  {
    assert OnlySeparators(s) ==> Lead(s) == |s|;
    assert s[..|s|] == s;
  }

  lemma EqualsBehind(p: bytes, t: bytes)
    requires EQUALS !in p
    ensures EqualsAt(p + t) == |p| + EqualsAt(t)
  {
    var s := p + t;
    var k := EqualsAt(s);
    forall i | 0 <= i < |p|
      ensures s[i] != EQUALS
    {
      assert s[i] == p[i] && p[i] in p;
    }
    assert forall i :: 0 <= i < |t| ==> s[|p| + i] == t[i];
  }

  /** The name and value of a field are the same to both. */
  lemma FieldTaken(s: bytes)
    requires NoNul(s) && IsField(FirstWordOf(s))
    ensures EqualsAt(s) < |s| && Taken(s) == WordRow(FirstWordOf(s))
  {
    var k, e := EqualsAt(FirstWordOf(s)), WordEnd(s, 0);
    FirstEquals(s, s[..e], k);
    SepIn(s, k, e);
    TakenIs(s, k, e);
  }

  /** And so is what is behind it. */
  lemma FieldRest(s: bytes)
    requires NoNul(s) && IsField(FirstWordOf(s))
    ensures EqualsAt(s) < |s| && RestOf(s) == After(s, WordEnd(s, 0))
  {
    var k, e := EqualsAt(FirstWordOf(s)), WordEnd(s, 0);
    FirstEquals(s, s[..e], k);
    SepIn(s, k, e);
    RestIs(s, k, e);
  }

  lemma TakenIs(s: bytes, k: nat, e: nat)
    requires k == EqualsAt(s) < e <= |s| && SepAt(s[k + 1..]) == e - k - 1 && IsField(s[..e]) && EqualsAt(s[..e]) == k
    ensures Taken(s) == WordRow(s[..e])
  {
    ValueIs(s, k, e);
    FieldParts(s[..e]);
  }

  lemma FieldParts(w: bytes)
    requires IsField(w)
    ensures RawName(w) == w[..EqualsAt(w)] && RawValue(w) == w[EqualsAt(w) + 1..]
  {
    NameLenIs(w);
  }

  lemma FirstEquals(s: bytes, w: bytes, k: nat)
    requires w <= s && k < |w| && w[k] == EQUALS && forall i :: 0 <= i < k ==> w[i] != EQUALS
    ensures EqualsAt(s) == k
  {
    var t := s[k..];
    assert s == w[..k] + t && t[0] == EQUALS;
    NoneIn(w, k);
    EqualsBehind(w[..k], t);
  }

  lemma ValueIs(s: bytes, k: nat, e: nat)
    requires k == EqualsAt(s) < e <= |s| && SepAt(s[k + 1..]) == e - k - 1
    ensures NameOf(s) == s[..e][..k] && ValueOf(s) == s[..e][k + 1..]
  {
    SliceOfSlice(s, k, e);
  }

  /** What stands behind the separator at e. */
  function After(s: bytes, e: nat): Option<bytes> { if e < |s| then Some(s[e + 1..]) else None }

  lemma RestIs(s: bytes, k: nat, e: nat)
    requires k == EqualsAt(s) < e <= |s| && SepAt(s[k + 1..]) == e - k - 1
    ensures RestOf(s) == After(s, e)
  {
    TailOfSlice(s, k, e);
  }

  lemma SepIn(s: bytes, k: nat, e: nat)
    requires NoNul(s) && k < e == WordEnd(s, 0)
    ensures SepAt(s[k + 1..]) == e - k - 1
  {
    WordEndShift(s, k + 1, k + 1, e);
    CutParts(s, k + 1);
    SepIsWordEnd(s[k + 1..]);
  }

  lemma SliceOfSlice(s: bytes, k: nat, e: nat)
    requires k < e <= |s|
    ensures s[k + 1..][..e - k - 1] == s[..e][k + 1..] && s[..k] == s[..e][..k]
  {
  }

  lemma TailOfSlice(s: bytes, k: nat, e: nat)
    requires k < e <= |s|
    ensures e < |s| ==> s[k + 1..][e - k..] == s[e + 1..]
  {
  }

  lemma SepIsWordEnd(v: bytes)
    requires NoNul(v)
    ensures SepAt(v) == WordEnd(v, 0)
  {
    if SepAt(v) < |v| { assert EndsWord(v[SepAt(v)]); }
    if WordEnd(v, 0) < |v| { EndIsSeparator(v, WordEnd(v, 0)); }
  }

  lemma Regroup(n: bytes, v: bytes)
    ensures n + ([EQUALS] + v) == n + [EQUALS] + v
  {
  }

  lemma NameLenIs(w: bytes)
    requires EqualsAt(w) > 0
    ensures NameLen(w) == if EqualsAt(w) < |w| then EqualsAt(w) else 0
  {
    var k := EqualsAt(w);
    var n := w[..k];
    NoneIn(w, k);
    if k < |w| {
      CutAt(w, k);
      Regroup(n, w[k + 1..]);
      NameLenOf(n, w[k + 1..]);
    } else {
      assert n == w;
      NoEqualsNoName(w);
    }
  }

  // ------------------------------------------------------------ names that differ

  lemma {:induction false} SeparatorsStay(x: bytes)
    requires OnlySeparators(x)
    ensures Decode(x) == Decoded(Success, x, |x|)
    decreases |x|
  {
    if x != [] {
      SeparatorsStay(x[1..]);
      SeparatorFirst(x);
      assert [x[0]] + x[1..] == x;
    }
  }

  lemma SeparatorFirst(x: bytes)
    requires x != [] && IsSeparator(x[0])
    ensures Decode(x) == Prepend([x[0]], 1, Decode(x[1..]))
  {
    assert First(x) == Piece([x[0]], 1);
  }

  /** A name that holds separators besides is longer. */
  lemma LongerName(x: bytes, m: bytes, y: bytes)
    requires OnlySeparators(x) && (y != [] ==> IsSeparator(y[0])) && (x != [] || y != [])
    requires Decode(m).st == Success && Decode(x + (m + y)).st == Success
    ensures |Decode(x + (m + y)).out| > |Decode(m).out|
  {
    SeparatorsStay(x);
    DecodeContinues(x, m + y);
    assert x[|x|..] + (m + y) == m + y;
    DecodeContinues(m, y);
    assert m[|m|..] + y == y;
    if y != [] {
      assert First(y) == Piece([y[0]], 1);
    }
  }

  lemma PlainFirst(m: bytes)
    requires m != [] && (IsSeparator(m[0]) || m[0] == EQUALS) && Decode(m).st == Success
    ensures Decode(m).out != [] && Decode(m).out[0] == m[0]
  {
    assert First(m) == Piece([m[0]], 1);
  }

  lemma RowName(w: bytes)
    ensures
      var o := WordRow(w);
      o.Row? ==> Decode(RawName(w)).st == Success && o.p.name == Decode(RawName(w)).out
  {
  }

  /** How the two names lie in a body that does not begin with a field. */
  ghost predicate Lie(n: bytes, x: bytes, m: bytes, y: bytes) {
    n == x + (m + y) && OnlySeparators(x) && (y != [] ==> IsSeparator(y[0])) && (x != [] || y != [])
  }

  lemma NamesLie(s: bytes, x: bytes, f: bytes, w: bytes) returns (y: bytes)
    requires s == x + f && OnlySeparators(x) && NoNul(f) && w == FirstWordOf(f) && EqualsAt(w) > 0
    requires EqualsAt(s) < |s| && (x == [] ==> !IsField(w))
    ensures Lie(s[..EqualsAt(s)], x, RawName(w), y)
  {
    var k := EqualsAt(w);
    NameLenIs(w);
    assert RawName(w) == w[..k] by { assert w[..|w|] == w; }
    assert EQUALS !in x;
    EqualsBehind(x, f);
    var g := f[k..];
    assert f == w[..k] + g;
    EqualsBehind(w[..k], g);
    y := g[..EqualsAt(g)];
    assert s[..EqualsAt(s)] == x + (w[..k] + y);
    if k < |w| {
      assert g[0] == EQUALS && y == [];
    } else {
      assert EqualsAt(g) < |g|;
      assert g[0] == f[|w|];
      EndIsSeparator(f, |w|);
    }
  }

  lemma RawNamesDiffer(s: bytes, x: bytes, f: bytes, w: bytes)
    requires s == x + f && OnlySeparators(x) && NoNul(f) && w == FirstWordOf(f) && w != []
    requires EqualsAt(s) < |s| && (x == [] ==> !IsField(w))
    ensures
      var n := s[..EqualsAt(s)];
      var a, b := Decode(n), Decode(RawName(w));
      n != [] && a.st == Success && b.st == Success ==> a.out != b.out
  {
    if w[0] == EQUALS {
      EqualsFirst(s, x, f, w);
    } else {
      var y := NamesLie(s, x, f, w);
      if Decode(s[..EqualsAt(s)]).st == Success && Decode(RawName(w)).st == Success {
        LongerName(x, RawName(w), y);
      }
    }
  }

  lemma TakenName(s: bytes)
    requires EqualsAt(s) < |s|
    ensures
      var n, o := s[..EqualsAt(s)], Taken(s);
      o.Row? ==> n != [] && Decode(n).st == Success && o.p.name == Decode(n).out
  {
  }

  lemma NamesDiffer(s: bytes)
    requires NoNul(s) && Lead(s) < |s| && EqualsAt(s) < |s|
    ensures
      var o, o' := Taken(s), WordRow(FirstWordOf(s[Lead(s)..]));
      !IsField(FirstWordOf(s)) && o.Row? && o'.Row? ==> o.p.name != o'.p.name
  {
    LeadingOff(s);
    if !IsField(FirstWordOf(s)) {
      RawNamesDiffer(s, s[..Lead(s)], s[Lead(s)..], FirstWordOf(s[Lead(s)..]));
    }
    TakenName(s);
    RowName(FirstWordOf(s[Lead(s)..]));
  }

  lemma CutParts(s: bytes, k: nat)
    requires k <= |s|
    ensures s == s[..k] + s[k..] && (k == 0 ==> s[k..] == s) && (NoNul(s) ==> NoNul(s[k..]))
  {
  }

  lemma LeadingOff(s: bytes)
    requires Lead(s) < |s| && NoNul(s)
    ensures
      var x, f := s[..Lead(s)], s[Lead(s)..];
      s == x + f && NoNul(f) && FirstWordOf(f) != [] && (x == [] ==> f == s)
  {
    CutParts(s, Lead(s));
    FirstWordStarts(s[Lead(s)..]);
  }

  lemma FirstWordStarts(f: bytes)
    requires f != [] && NoNul(f) && !IsSeparator(f[0])
    ensures FirstWordOf(f) != [] && FirstWordOf(f)[0] == f[0]
  {
    assert !EndsWord(f[0]);
  }

  /** Behind separators, '=' first: one name begins with a separator, the other with '='. */
  lemma EqualsFirst(s: bytes, x: bytes, f: bytes, w: bytes)
    requires s == x + f && OnlySeparators(x) && w == FirstWordOf(f) && w != [] && w[0] == EQUALS
    ensures s[..EqualsAt(s)] == x
    ensures x != [] && Decode(x).st == Success && Decode(RawName(w)).st == Success ==>
              Decode(x).out != Decode(RawName(w)).out
  {
    EqualsBehind(x, f);
    assert s[..|x|] == x;
    if x != [] && Decode(x).st == Success && Decode(RawName(w)).st == Success {
      PlainFirst(x);
      PlainFirst(RawName(w));
    }
  }

  // ------------------------------------------------------------ agreement

  lemma RowThenRest(h: UState, a: Answer, rows: seq<Param>, p: Param)
    ensures Agrees(h, a, rows + [p]) <==> Agrees(h, WithRow(p, a), rows)
  {
    assert (rows + [p]) + a.rows == rows + ([p] + a.rows);
  }

  /** A body that does not begin with a field. */
  lemma NoField(s: bytes, rows: seq<Param>)
    requires NoNul(s) && !OnlySeparators(s) && !IsField(FirstWordOf(s))
    ensures Agrees(Stream(s, rows), Query(s), rows) <==> RefusedAlike(s)
  {
    LeadOfAll(s);
    RefusedAlikeIs(s);
    QuerySkips(s);
    var f := s[Lead(s)..];
    QuerySteps(f);
    var w, more := FirstWordOf(f), Behind(f, WordEnd(f, 0));
    FirstWordStarts(f);
    if EqualsAt(s) == |s| {
      NoWord(s, rows);
      Refusal(s, rows, w, more);
    } else {
      StreamsWord(s, rows);
      match Taken(s)
      case Refused(st) => Refusal(s, rows, w, more);
      case Row(p) =>
        EndedRow(RestOf(s), rows, Stream(s, rows), p);
        DifferentRows(s, rows, Stream(s, rows).rows, more);
    }
  }

  /** The streaming parser adds nothing. */
  lemma Refusal(s: bytes, rows: seq<Param>, w: bytes, more: Answer)
    requires Stream(s, rows).rows == rows && w != [] && Query(s) == WordThen(w, more)
    ensures
      var h := Stream(s, rows);
      Agrees(h, Query(s), rows) <==> h.status == UrlError && WordRow(w) == Refused(h.err)
  {
    assert rows + [] == rows;
  }

  /** The streaming parser adds a row that the batch parser does not. */
  lemma DifferentRows(s: bytes, rows: seq<Param>, streamed: seq<Param>, more: Answer)
    requires NoNul(s) && Lead(s) < |s| && EqualsAt(s) < |s|
    ensures
      var o, w := Taken(s), FirstWordOf(s[Lead(s)..]);
      !IsField(FirstWordOf(s)) && o.Row? && w != [] && rows + [o.p] <= streamed ==> streamed != rows + WordThen(w, more).rows
  {
    var o, w := Taken(s), FirstWordOf(s[Lead(s)..]);
    NamesDiffer(s);
    if !IsField(FirstWordOf(s)) && o.Row? && w != [] && rows + [o.p] <= streamed {
      OtherRow(streamed, WordThen(w, more).rows, rows, o.p);
    }
  }

  lemma EndedRow(rest: Option<bytes>, rows: seq<Param>, h: UState, p: Param)
    requires Ended(Row(p), rest, rows, h)
    ensures rows + [p] <= h.rows
  {
    if rest.Some? { RowsGrow(Start(rows + [p]), rest.value); }
  }

  lemma OtherRow(streamed: seq<Param>, batch: seq<Param>, rows: seq<Param>, p: Param)
    requires rows + [p] <= streamed && (batch == [] || batch[0] != p)
    ensures streamed != rows + batch
  {
    assert streamed[|rows|] == p;
    assert batch != [] ==> (rows + batch)[|rows|] == batch[0];
  }

  /** On a body without NUL the parsers agree exactly if it is Alike. */
  lemma {:induction false} AgreesExactly(s: bytes, rows: seq<Param>)
    requires NoNul(s)
    ensures Agrees(Stream(s, rows), Query(s), rows) <==> Alike(s)
    decreases |s|
  {
    var e, o := WordEnd(s, 0), WordRow(FirstWordOf(s));
    if OnlySeparators(s) {
      SeparatorsAgree(s, rows);
    } else if IsField(s[..e]) {
      FieldFirst(s, rows);
      if o.Row? && e < |s| {
        AgreesExactly(s[e + 1..], rows + [o.p]);
      }
    } else {
      NoField(s, rows);
    }
  }

  /** Both parsers have the same outcome for a word: they agree if that ends both, or if
      they agree on what is behind it. */
  lemma OutcomeDecides(o: Outcome, rest: Option<bytes>, rows: seq<Param>, h: UState, more: Answer)
    requires Ended(o, rest, rows, h) && (rest.None? ==> more == Answer(Success, []))
    ensures Agrees(h, AnswerOf(o, more), rows) <==>
              o.Refused? || rest.None? || Agrees(Stream(rest.value, rows + [o.p]), more, rows + [o.p])
  {
    match o
    case Refused(_) => assert rows + [] == rows;
    case Row(p) => RowThenRest(h, more, rows, p);
  }

  /** A body that begins with a field. */
  lemma FieldFirst(s: bytes, rows: seq<Param>)
    requires NoNul(s) && IsField(FirstWordOf(s))
    ensures
      var o, rest := WordRow(FirstWordOf(s)), After(s, WordEnd(s, 0));
      Agrees(Stream(s, rows), Query(s), rows) <==>
        o.Refused? || rest.None? || Agrees(Stream(rest.value, rows + [o.p]), Query(rest.value), rows + [o.p])
  {
    FieldTaken(s);
    FieldRest(s);
    StreamsWord(s, rows);
    QueryField(s);
    OutcomeDecides(Taken(s), RestOf(s), rows, Stream(s, rows), AnswerBehind(RestOf(s)));
  }

  function AnswerBehind(rest: Option<bytes>): Answer {
    match rest case None => Answer(Success, []) case Some(r) => Query(r)
  }

  lemma QueryField(s: bytes)
    requires NoNul(s) && IsField(FirstWordOf(s))
    ensures Query(s) == AnswerOf(WordRow(FirstWordOf(s)), AnswerBehind(After(s, WordEnd(s, 0))))
  {
    QuerySteps(s);
    if WordEnd(s, 0) < |s| { EndIsSeparator(s, WordEnd(s, 0)); }
  }

  lemma SeparatorsAgree(s: bytes, rows: seq<Param>)
    requires NoNul(s) && OnlySeparators(s)
    ensures Agrees(Stream(s, rows), Query(s), rows)
  {
    LeadOfAll(s);
    QuerySkips(s);
    NoWord(s, rows);
    assert WordEnd([], 0) == 0;
    assert rows + [] == rows;
  }

  /** The streaming parser refines the batch parser on bodies of name=value words. */
  lemma {:induction false} StreamRefinesBatch(s: bytes, rows: seq<Param>)
    requires NoNul(s) && Fields(s)
    ensures Agrees(Stream(s, rows), Query(s), rows)
  {
    FieldsAreAlike(s);
    AgreesExactly(s, rows);
  }

  lemma {:induction false} FieldsAreAlike(s: bytes)
    requires Fields(s)
    ensures Alike(s)
    decreases |s|
  {
    var e := WordEnd(s, 0);
    if !OnlySeparators(s) && e < |s| {
      FieldsAreAlike(s[e + 1..]);
    }
  }

  /** Where the batch parser succeeds, a body that does not begin with a field is refused by
      the streaming one alone, or by neither. */
  lemma NoFieldNoRefusal(s: bytes)
    requires NoNul(s) && !OnlySeparators(s) && Query(s).st == Success
    ensures !RefusedAlike(s)
  {
    LeadOfAll(s);
    RefusedAlikeIs(s);
    QuerySkips(s);
    QuerySteps(s[Lead(s)..]);
    FirstWordStarts(s[Lead(s)..]);
  }

  /** When the batch parser succeeds, name=value words are the only bodies they agree on. */
  lemma {:induction false} OnlyFieldsAgree(s: bytes)
    requires NoNul(s) && Query(s).st == Success
    ensures Alike(s) <==> Fields(s)
    decreases |s|
  {
    if OnlySeparators(s) {
    } else if IsField(FirstWordOf(s)) {
      QueryField(s);
      if WordEnd(s, 0) < |s| {
        OnlyFieldsAgree(s[WordEnd(s, 0) + 1..]);
      }
    } else {
      NoFieldNoRefusal(s);
    }
  }
}
