/** The urlencoded parser as a byte machine (library/parser_urlencoded.c). */
module UrlMachine {
  import opened Bytes
  import opened UrlCodec
  import opened QueryStrings

  datatype UStatus = UrlName | UrlValue | UrlComplete | UrlError

  /** Status, the raw name and value read so far, the table, and why parsing failed. */
  datatype UState = UState(status: UStatus, name: bytes, val: bytes, rows: seq<Param>, err: Status)

  function Start(rows: seq<Param>): UState { UState(UrlName, [], [], rows, Success) }

  /** split_urlword: the word is complete, its row joins the table or ends the parse. */
  function FinishWord(h: UState, done: UStatus): UState {
    match DecodeWord(h.name, h.val)
    case Row(p) => UState(done, [], [], h.rows + [p], Success)
    case Refused(st) => h.(status := UrlError, err := st)
  }

  function Step(h: UState, ch: byte): UState {
    match h.status
    case UrlName => if ch == EQUALS then h.(status := UrlValue) else h.(name := h.name + [ch])
    case UrlValue =>
      if ch == AMP || ch == SEMI then FinishWord(h, UrlName) else h.(val := h.val + [ch])
    case _ => h
  }

  function Run(h: UState, s: bytes): UState
    decreases |s|
  {
    if s == [] then h else Run(Step(h, s[0]), s[1..])
  }

  /** EOS completes a value; a name without a value is dropped. */
  function AtEos(h: UState): UState {
    if h.status == UrlValue then FinishWord(h, UrlComplete) else h
  }

  lemma {:induction false} RunConcat(h: UState, a: bytes, b: bytes)
    ensures Run(h, a + b) == Run(Run(h, a), b)
    decreases |a|
  {
    if a == [] {
      assert a + b == b;
    } else {
      RunConcat(Step(h, a[0]), a[1..], b);
      assert (a + b)[1..] == a[1..] + b;
    }
  }

  lemma {:induction false} RunOver(h: UState, s: bytes)
    requires h.status == UrlError || h.status == UrlComplete
    ensures Run(h, s) == h
    decreases |s|
  {
    if s != [] { RunOver(h, s[1..]); }
  }

  lemma {:induction false} RunName(h: UState, n: bytes)
    requires h.status == UrlName && EQUALS !in n
    ensures Run(h, n) == h.(name := h.name + n)
    decreases |n|
  {
    if n == [] {
      assert h.name + n == h.name;
    } else {
      assert n[0] in n;
      RunName(Step(h, n[0]), n[1..]);
      assert (h.name + [n[0]]) + n[1..] == h.name + n;
    }
  }

  predicate IsSeparator(c: byte) { c == AMP || c == SEMI }

  lemma {:induction false} RunValue(h: UState, v: bytes)
    requires h.status == UrlValue && forall i :: 0 <= i < |v| ==> !IsSeparator(v[i])
    ensures Run(h, v) == h.(val := h.val + v)
    decreases |v|
  {
    if v == [] {
      assert h.val + v == h.val;
    } else {
      RunValue(Step(h, v[0]), v[1..]);
      assert (h.val + [v[0]]) + v[1..] == h.val + v;
    }
  }

  /** A last word without '=' is a parameter to the batch parser, and nothing to the
      streaming one. */
  lemma BareNameIsDropped(n: bytes, rows: seq<Param>)
    requires n != [] && EQUALS !in n && NoWordEnd(n)
    ensures
      var h := AtEos(Run(Start(rows), n));
      h.status == UrlName && h.rows == rows
    ensures Query(n) == match DecodeWord(n, []) case Refused(st) => Answer(st, []) case Row(p) => Answer(Success, [p])
  {
    RunName(Start(rows), n);
    NoEqualsNoName(n);
    WordInFront(n, []);
    assert n + [] == n;
  }

  /** How a word ends the parse, at either separator and at EOS. */
  lemma WordEnds(h: UState, st: Status)
    requires h.status == UrlValue && st != Success
    ensures forall r :: r == Step(h, AMP) || r == Step(h, SEMI) || r == AtEos(h) ==>
              (r.status == UrlError && r.err == st <==> WordStops(h.name, h.val, st))
  {
    WordStopsExactly(h.name, h.val, st);
  }

  /** A word puts the parser in error with the status that asks for more input exactly if
      its value ends in an unfinished escape, or its name does and the value is in order. */
  lemma UnfinishedEscapeIsAnError(h: UState)
    requires h.status == UrlValue
    ensures forall r :: r == Step(h, AMP) || r == Step(h, SEMI) || r == AtEos(h) ==>
              (r.status == UrlError && r.err == Incomplete <==>
                h.name != [] && (Undecodable(h.val, Incomplete)
                                 || (Decode(h.val).st == Success && Undecodable(h.name, Incomplete))))
  {
    WordEnds(h, Incomplete);
  }
}
