/** Parameters and query strings (library/param.c): decoding one name=value word, and the
    batch parser that the streaming one is measured against. */
module QueryStrings {
  import opened Bytes
  import opened Brigades
  import opened UrlCodec
  import opened UrlDecoders

  // ------------------------------------------------------------ one word

  /** A word is a row, or is refused. */
  datatype Outcome = Row(p: Param) | Refused(st: Status)

  /** How much a charset admits: each one in this order covers those in front of it. */
  function Rank(c: Charset): nat {
    match c case Ascii => 0 case Utf8 => 1 case Latin1 => 2 case Cp1252 => 3
  }

  /** The charset of a parameter, from those of its value and its name: the wider one. */
  function MergeCharsets(value: Charset, name: Charset): (r: Charset)
    ensures r == value || r == name
    ensures Rank(r) >= Rank(value) && Rank(r) >= Rank(name)
  {
    match name
    case Utf8 => if value == Ascii then Utf8 else value
    case Ascii => value
    case Latin1 => if value != Cp1252 then Latin1 else value
    case Cp1252 => Cp1252
  }

  /** c is the wider of the charsets recognised in the name and in the value. */
  predicate IsWider(c: Charset, name: bytes, value: bytes) {
    var n, v := Charsets.Divine(name), Charsets.Divine(value);
    (c == n || c == v) && Rank(c) >= Rank(n) && Rank(c) >= Rank(v)
  }

  /** The row of a decoded name and value: no upload, no headers, tainted. */
  predicate IsRow(p: Param, name: bytes, value: bytes) {
    && p.name == name && p.value == value && p.upload == None && p.info == [] && p.tainted
    && IsWider(p.charset, name, value)
  }

  function RowOf(name: bytes, value: bytes): (p: Param)
    ensures IsRow(p, name, value)
  {
    Param(name, value, None, [], MergeCharsets(Charsets.Divine(value), Charsets.Divine(name)), true)
  }

  /** What the raw name n and the raw value v stand for. */
  function DecodeWord(n: bytes, v: bytes): (r: Outcome)
    ensures r.Refused? ==> r.st != Success && (r.st == BadArg <==> n == [])
  {
    if n == [] then Refused(BadArg)
    else
      var value := Decode(v);
      if value.st != Success then Refused(value.st)
      else
        var name := Decode(n);
        if name.st != Success then Refused(name.st) else Row(RowOf(name.out, value.out))
  }

  /** Why a word is refused: no name, a value that cannot be decoded, or a name that
      cannot behind a value that can. */
  ghost predicate WordStops(n: bytes, v: bytes, st: Status) {
    if n == [] then st == BadArg
    else Undecodable(v, st) || (Decode(v).st == Success && Undecodable(n, st))
  }

  predicate WordDecodes(n: bytes, v: bytes) { n != [] && Decode(n).st == Success && Decode(v).st == Success }

  lemma NeverStops(s: bytes, st: Status)
    requires st == Success || st == BadArg
    ensures !Undecodable(s, st)
  {
  }

  /** A word is refused with a status exactly for its reason, and has a row otherwise. */
  lemma WordStopsExactly(n: bytes, v: bytes, st: Status)
    ensures DecodeWord(n, v) == Refused(st) <==> WordStops(n, v, st)
    ensures DecodeWord(n, v).Row? <==> WordDecodes(n, v)
    ensures WordDecodes(n, v) ==> IsRow(DecodeWord(n, v).p, Decode(n).out, Decode(v).out)
  {
    if st == Success {
      NeverStops(v, st);
      NeverStops(n, st);
    } else {
      StopsExactly(v, st);
      StopsExactly(n, st);
    }
  }

  /** apreq_decode into a buffer of its own. */
  method DecodeString(s: bytes) returns (st: Status, out: bytes)
    ensures st == Decode(s).st && out == Decode(s).out
  {
    var mem := new byte[2 * |s| + 1];
    ghost var now := Store(mem, 0, s, mem[..]);
    var dlen, k;
    ghost var o;
    st, dlen, k, o, now := UrlDecode(mem, |s|, 0, |s|, now, s);
    out := mem[|s|..|s| + dlen];
    assert out == now[|s|..|s| + dlen];
  }

  /** apreq_param_decode on word = name=value */
  method ParamDecode(word: bytes, nlen: nat, vlen: nat) returns (r: Outcome)
    requires nlen <= |word| && (vlen > 0 ==> nlen + 1 + vlen <= |word|)
    ensures r == DecodeWord(word[..nlen], if vlen == 0 then [] else word[nlen + 1..nlen + 1 + vlen])
  {
    if nlen == 0 {
      return Refused(BadArg);
    }
    var value, charset, st := [], Ascii, Success;
    if vlen > 0 {
      st, value := DecodeString(word[nlen + 1..nlen + 1 + vlen]);
      if st != Success {
        return Refused(st);
      }
      charset := Charsets.CharsetDivine(value);
    }
    var name;
    st, name := DecodeString(word[..nlen]);
    if st != Success {
      return Refused(st);
    }
    var c := Charsets.CharsetDivine(name);
    return Row(Param(name, value, None, [], MergeCharsets(charset, c), true));
  }

  // ------------------------------------------------------------ a query string

  predicate EndsWord(c: byte) { c == AMP || c == SEMI || c == 0 }

  /** Where the word at i ends: at a separator, a NUL or the end of the string. */
  function WordEnd(s: bytes, i: nat): (e: nat)
    requires i <= |s|
    ensures i <= e <= |s|
    ensures forall j :: i <= j < e ==> !EndsWord(s[j])
    ensures e < |s| ==> EndsWord(s[e])
    decreases |s| - i
  {
    if i == |s| || EndsWord(s[i]) then i else WordEnd(s, i + 1)
  }

  /** The position of the first '=' behind the first byte, or 0. */
  function NameLen(w: bytes): (n: nat)
    ensures n > 0 ==> n < |w| && w[n] == EQUALS
    decreases |w|
  {
    if w == [] then 0
    else
      var n := NameLen(w[..|w| - 1]);
      if n > 0 then n else if w[|w| - 1] == EQUALS then |w| - 1 else 0
  }

  /** The raw name and value of a word: without '=' it is a name with an empty value. */
  function RawName(w: bytes): bytes { if NameLen(w) == 0 then w else w[..NameLen(w)] }

  function RawValue(w: bytes): bytes { if NameLen(w) == 0 then [] else w[NameLen(w) + 1..] }

  function WordRow(w: bytes): Outcome { DecodeWord(RawName(w), RawValue(w)) }

  datatype Answer = Answer(st: Status, rows: seq<Param>)

  function WithRow(p: Param, a: Answer): Answer { Answer(a.st, [p] + a.rows) }

  /** What the outcome of a word makes of the answer behind it. */
  function AnswerOf(o: Outcome, more: Answer): Answer {
    match o case Refused(st) => Answer(st, []) case Row(p) => WithRow(p, more)
  }

  function WordThen(w: bytes, more: Answer): Answer { if w == [] then more else AnswerOf(WordRow(w), more) }

  /** apreq_parse_query_string: empty words are skipped, and the first word that cannot
      be decoded ends the parse. */
  function Query(s: bytes): Answer
    decreases |s|, 1
  {
    var e := WordEnd(s, 0);
    WordThen(s[..e], Behind(s, e))
  }

  /** The words behind the one that ends at e. */
  function Behind(s: bytes, e: nat): Answer
    requires e <= |s|
    decreases |s|, 0
  {
    if e == |s| || s[e] == 0 then Answer(Success, []) else Query(s[e + 1..])
  }

  lemma {:induction false} WordEndShift(s: bytes, start: nat, i: nat, e: nat)
    requires start <= i <= e <= |s| && (e < |s| ==> EndsWord(s[e]))
    requires forall j :: i <= j < e ==> !EndsWord(s[j])
    ensures WordEnd(s[start..], i - start) == e - start
    decreases e - i
  {
    if i < e { WordEndShift(s, start, i + 1, e); }
  }

  lemma FirstWord(s: bytes, start: nat, e: nat)
    requires start <= e <= |s| && (e < |s| ==> EndsWord(s[e]))
    requires forall j :: start <= j < e ==> !EndsWord(s[j])
    ensures Query(s[start..]) == WordThen(s[start..e], Behind(s, e))
  {
    WordEndShift(s, start, start, e);
    var q, k := s[start..], e - start;
    assert q[..k] == s[start..e];
    assert e < |s| ==> q[k] == s[e] && q[k + 1..] == s[e + 1..];
  }

  /** The length of a word's name, and what is left for its value. */
  lemma WordParts(w: bytes, n: nat, vlen: nat)
    requires w != []
    requires if NameLen(w) == 0 then n == |w| && vlen == 0 else n == NameLen(w) && n + 1 + vlen == |w|
    ensures n <= |w| && w[..n] == RawName(w) && (vlen > 0 ==> n + 1 + vlen <= |w|)
    ensures (if vlen == 0 then [] else w[n + 1..n + 1 + vlen]) == RawValue(w)
  {
  }

  /** The row of a word, its name being of length nlen. */
  method DecodeParts(w: bytes, nlen: nat) returns (r: Outcome)
    requires w != [] && nlen == NameLen(w)
    ensures r == WordRow(w)
  {
    var n, vlen := nlen, 0;
    if nlen == 0 {
      n := |w|;
    } else {
      vlen := |w| - nlen - 1;
    }
    WordParts(w, n, vlen);
    r := ParamDecode(w, n, vlen);
  }

  /** The end of a word: its parameter joins the table. */
  method AddWord(t: Table<Param>, s: bytes, start: nat, e: nat, nlen: nat) returns (st: Status)
    requires start <= e <= |s| && nlen == NameLen(s[start..e])
    modifies t
    ensures
      var w := s[start..e];
      if w == [] then st == Success && t.rows == old(t.rows)
      else match WordRow(w)
        case Refused(err) => st == err && err != Success && t.rows == old(t.rows)
        case Row(p) => st == Success && t.rows == old(t.rows) + [p]
  {
    st := Success;
    if e > start {
      var r := DecodeParts(s[start..e], nlen);
      match r
      case Refused(err) => st := err;
      case Row(p) => t.rows := t.rows + [p];
    }
  }

  lemma NameLenSnoc(s: bytes, start: nat, i: nat)
    requires start <= i < |s|
    ensures
      var n := NameLen(s[start..i]);
      NameLen(s[start..i + 1]) == if n == 0 && s[i] == EQUALS then i - start else n
  {
    var w := s[start..i + 1];
    assert w[..|w| - 1] == s[start..i];
  }

  /** The loop stands at i in the word that begins at start. */
  ghost predicate InWord(s: bytes, start: nat, i: nat, nlen: nat) {
    && start <= i <= |s| && (forall j :: start <= j < i ==> !EndsWord(s[j]))
    && nlen == NameLen(s[start..i])
  }

  /** The table has what the words in front of start add, and the rest is still to come. */
  ghost predicate Halfway(rows0: seq<Param>, rows: seq<Param>, all: Answer, rest: Answer) {
    rest.st == all.st && rows + rest.rows == rows0 + all.rows
  }

  lemma WordAdded(rows0: seq<Param>, rows: seq<Param>, next: seq<Param>, all: Answer, w: bytes, more: Answer,
                  st: Status)
    requires Halfway(rows0, rows, all, WordThen(w, more))
    requires
      if w == [] then st == Success && next == rows
      else match WordRow(w)
        case Refused(err) => st == err && err != Success && next == rows
        case Row(p) => st == Success && next == rows + [p]
    ensures st == Success ==> Halfway(rows0, next, all, more)
    ensures st != Success ==> st == all.st && next == rows0 + all.rows
  {
    if w != [] && WordRow(w).Row? {
      assert (rows + [WordRow(w).p]) + more.rows == rows + ([WordRow(w).p] + more.rows);
    } else if w != [] {
      assert rows + [] == rows;
    }
  }

  /** The end of a word, as seen by the whole parse. */
  method FinishWord(t: Table<Param>, s: bytes, start: nat, i: nat, nlen: nat, ghost rows0: seq<Param>,
                    ghost all: Answer)
    returns (st: Status)
    requires InWord(s, start, i, nlen) && (i < |s| ==> EndsWord(s[i])) && Halfway(rows0, t.rows, all, Query(s[start..]))
    modifies t
    ensures st == Success ==> Halfway(rows0, t.rows, all, Behind(s, i))
    ensures st != Success ==> st == all.st && t.rows == rows0 + all.rows
  {
    FirstWord(s, start, i);
    ghost var rows := t.rows;
    st := AddWord(t, s, start, i, nlen);
    WordAdded(rows0, rows, t.rows, all, s[start..i], Behind(s, i), st);
  }

  ghost predicate Standing(s: bytes, start: nat, i: nat, nlen: nat, rows0: seq<Param>, rows: seq<Param>, all: Answer) {
    InWord(s, start, i, nlen) && Halfway(rows0, rows, all, Query(s[start..]))
  }

  lemma FirstByte(s: bytes, rows: seq<Param>)
    ensures Standing(s, 0, 0, 0, rows, rows, Query(s))
  {
    assert s[0..] == s;
  }

  /** One byte further in a word. */
  lemma NextByte(s: bytes, start: nat, i: nat, nlen: nat, rows0: seq<Param>, rows: seq<Param>, all: Answer)
    requires Standing(s, start, i, nlen, rows0, rows, all) && i < |s| && !EndsWord(s[i])
    ensures Standing(s, start, i + 1, if s[i] == EQUALS && nlen == 0 then i - start else nlen, rows0, rows, all)
  {
    NameLenSnoc(s, start, i);
  }

  lemma NextWord(s: bytes, i: nat, rows0: seq<Param>, rows: seq<Param>, all: Answer)
    requires i < |s| && s[i] != 0 && Halfway(rows0, rows, all, Behind(s, i))
    ensures Standing(s, i + 1, i + 1, 0, rows0, rows, all)
  {
    assert s[i + 1..i + 1] == [];
  }

  lemma LastWord(s: bytes, i: nat, rows0: seq<Param>, rows: seq<Param>, all: Answer)
    requires i <= |s| && (i == |s| || s[i] == 0) && Halfway(rows0, rows, all, Behind(s, i))
    ensures all.st == Success && rows == rows0 + all.rows
  {
    assert rows + [] == rows;
  }

  /** apreq_parse_query_string */
  method ParseQueryString(t: Table<Param>, s: bytes) returns (st: Status)
    modifies t
    ensures st == Query(s).st && t.rows == old(t.rows) + Query(s).rows
  {
    ghost var rows0, all := t.rows, Query(s);
    var start: nat, i: nat, nlen: nat := 0, 0, 0;
    FirstByte(s, rows0);
    while true
      invariant Standing(s, start, i, nlen, rows0, t.rows, all)
      decreases |s| - i
    {
      if i < |s| && !EndsWord(s[i]) {
        NextByte(s, start, i, nlen, rows0, t.rows, all);
        if s[i] == EQUALS && nlen == 0 {
          nlen := i - start;
        }
        i := i + 1;
      } else {
        st := FinishWord(t, s, start, i, nlen, rows0, all);
        if st != Success {
          return;
        }
        if i == |s| || s[i] == 0 {
          LastWord(s, i, rows0, t.rows, all);
          return Success;
        }
        NextWord(s, i, rows0, t.rows, all);
        start, i, nlen := i + 1, i + 1, 0;
      }
    }
  }

  // ------------------------------------------------------------ printed parameters

  /** A name and value, and the separator behind them. */
  datatype Pair = Pair(name: bytes, value: bytes, sep: byte)

  /** apreq_param_encode results joined with & or ; and nothing behind the last. */
  function PrintQuery(ps: seq<Pair>): bytes {
    if ps == [] then []
    else EncodePair(ps[0]) + if |ps| == 1 then [] else [ps[0].sep] + PrintQuery(ps[1..])
  }

  /** apreq_param_encode */
  function EncodePair(p: Pair): bytes { Encode(p.name) + [EQUALS] + Encode(p.value) }

  function PairRows(ps: seq<Pair>): (rows: seq<Param>)
    ensures |rows| == |ps| && forall i :: 0 <= i < |ps| ==> IsRow(rows[i], ps[i].name, ps[i].value)
  {
    if ps == [] then [] else [RowOf(ps[0].name, ps[0].value)] + PairRows(ps[1..])
  }

  ghost predicate PairsOk(ps: seq<Pair>) {
    forall i :: 0 <= i < |ps| ==> ps[i].name != [] && (ps[i].sep == AMP || ps[i].sep == SEMI)
  }

  method ParamEncode(name: bytes, value: bytes) returns (data: bytes)
    ensures data == EncodePair(Pair(name, value, AMP)) && |data| <= 3 * (|name| + |value|) + 1
  {
    EncodeRoundTrip(name);
    EncodeRoundTrip(value);
    data := UrlEncode(name);
    var v := UrlEncode(value);
    data := data + [EQUALS] + v;
  }

  lemma {:induction false} NameLenOf(n: bytes, v: bytes)
    requires n != [] && EQUALS !in n
    ensures NameLen(n) == 0 && NameLen(n + [EQUALS] + v) == |n|
    decreases |n| + |v|
  {
    if v == [] {
      var w := n + [EQUALS] + v;
      assert w[..|w| - 1] == n;
      NoEqualsNoName(n);
    } else {
      var w := n + [EQUALS] + v;
      NameLenOf(n, v[..|v| - 1]);
      assert w[..|w| - 1] == n + [EQUALS] + v[..|v| - 1];
    }
  }

  lemma {:induction false} NoEqualsNoName(n: bytes)
    requires EQUALS !in n
    ensures NameLen(n) == 0
    decreases |n|
  {
    if n != [] {
      assert n[|n| - 1] in n;
      NoEqualsNoName(n[..|n| - 1]);
    }
  }

  predicate NoWordEnd(w: bytes) { forall i :: 0 <= i < |w| ==> !EndsWord(w[i]) }

  /** One encoded pair is one word. */
  lemma PairIsWord(p: Pair)
    ensures NoWordEnd(EncodePair(p)) && EncodePair(p) != []
  {
    EncodedHasNoSeparators(p.name);
    EncodedHasNoSeparators(p.value);
    var n, v := Encode(p.name), Encode(p.value);
    var w := n + [EQUALS] + v;
    forall i | 0 <= i < |w|
      ensures !EndsWord(w[i])
    {
      if i > |n| { assert w[i] == v[i - |n| - 1]; }
    }
  }

  /** One encoded pair comes back as it was. */
  lemma PairRow(p: Pair)
    requires p.name != []
    ensures WordRow(EncodePair(p)) == Row(RowOf(p.name, p.value))
  {
    var n, v := Encode(p.name), Encode(p.value);
    EncodeRoundTrip(p.name);
    EncodeRoundTrip(p.value);
    assert EQUALS !in n by { EncodedHasNoSeparators(p.name); }
    NameLenOf(n, v);
    var w := n + [EQUALS] + v;
    assert w[..|n|] == n && w[|n| + 1..] == v;
  }

  /** A word in front of a separator and more, or at the end. */
  lemma WordInFront(w: bytes, tail: bytes)
    requires NoWordEnd(w) && (tail != [] ==> EndsWord(tail[0]))
    ensures Query(w + tail) == WordThen(w, if tail == [] || tail[0] == 0 then Answer(Success, []) else Query(tail[1..]))
  {
    var s, e := w + tail, |w|;
    forall j | 0 <= j < e
      ensures !EndsWord(s[j])
    {
      assert s[j] == w[j];
    }
    FirstWord(s, 0, e);
    assert s[0..] == s && s[0..e] == w;
    assert tail != [] ==> s[e] == tail[0] && s[e + 1..] == tail[1..];
  }

  lemma PrintedFirst(ps: seq<Pair>)
    requires PairsOk(ps) && ps != []
    ensures
      var more := if |ps| > 1 then Query(PrintQuery(ps[1..])) else Answer(Success, []);
      Query(PrintQuery(ps)) == WordThen(EncodePair(ps[0]), more)
  {
    var tail := if |ps| == 1 then [] else [ps[0].sep] + PrintQuery(ps[1..]);
    PairIsWord(ps[0]);
    WordInFront(EncodePair(ps[0]), tail);
    assert |ps| > 1 ==> tail[1..] == PrintQuery(ps[1..]);
  }

  /** Encoded parameters, joined with & or ;, parse to the list they were printed from. */
  lemma {:induction false} QueryRoundTrip(ps: seq<Pair>)
    requires PairsOk(ps)
    ensures Query(PrintQuery(ps)) == Answer(Success, PairRows(ps)) && |PairRows(ps)| == |ps|
    ensures forall i :: 0 <= i < |ps| ==> IsRow(PairRows(ps)[i], ps[i].name, ps[i].value)
    decreases |ps|
  {
    if ps == [] {
      assert WordEnd([], 0) == 0;
    } else {
      PrintedFirst(ps);
      PairIsWord(ps[0]);
      PairRow(ps[0]);
      if |ps| > 1 {
        QueryRoundTrip(ps[1..]);
      } else {
        assert PairRows(ps[1..]) == [];
      }
    }
  }

  // ------------------------------------------------------------ raw words

  /** The name of a raw word ends at the first '=' behind its first byte; without one it has
      no value. */
  lemma WordMeans(n: bytes, v: bytes)
    requires n != [] && EQUALS !in n[1..]
    ensures WordRow(n) == DecodeWord(n, []) && WordRow(n + [EQUALS] + v) == DecodeWord(n, v)
  {
    var w := n + [EQUALS] + v;
    NameLenBehind(n, v);
    assert w[..|n|] == n && w[|n| + 1..] == v;
  }

  lemma {:induction false} NoNameBehind(n: bytes)
    requires n != [] && EQUALS !in n[1..]
    ensures NameLen(n) == 0
    decreases |n|
  {
    var m := n[..|n| - 1];
    if m == [] {
      assert NameLen(m) == 0;
    } else {
      assert m[1..] <= n[1..] && n[|n| - 1] == n[1..][|n| - 2];
      NoNameBehind(m);
    }
  }

  lemma {:induction false} NameLenBehind(n: bytes, v: bytes)
    requires n != [] && EQUALS !in n[1..]
    ensures NameLen(n) == 0 && NameLen(n + [EQUALS] + v) == |n|
    decreases |v|
  {
    var w := n + [EQUALS] + v;
    NoNameBehind(n);
    if v == [] {
      assert w[..|w| - 1] == n;
    } else {
      NameLenBehind(n, v[..|v| - 1]);
      assert w[..|w| - 1] == n + [EQUALS] + v[..|v| - 1];
    }
  }

  /** A raw word, which may be empty, and the separator behind it. */
  datatype Word = Word(w: bytes, sep: byte)

  predicate IsRaw(x: Word) { NoWordEnd(x.w) && (x.sep == AMP || x.sep == SEMI) }

  function Raw(ws: seq<Word>): bytes {
    if ws == [] then [] else ws[0].w + ([ws[0].sep] + Raw(ws[1..]))
  }

  predicate AllDecode(ws: seq<Word>) { forall i :: 0 <= i < |ws| && ws[i].w != [] ==> WordRow(ws[i].w).Row? }

  /** The rows of the words that are not empty. */
  function RowsOf(ws: seq<Word>): seq<Param>
    requires AllDecode(ws)
  {
    if ws == [] then [] else (if ws[0].w == [] then [] else [WordRow(ws[0].w).p]) + RowsOf(ws[1..])
  }

  /** The answer to words with these rows, and a last one in front of tail. */
  predicate AnswerIs(q: Answer, rows: seq<Param>, last: bytes, tail: bytes) {
    && (last != [] && WordRow(last).Refused? ==> q == Answer(WordRow(last).st, rows))
    && (tail == [] && last == [] ==> q == Answer(Success, rows))
    && (tail == [] && last != [] && WordRow(last).Row? ==> q == Answer(Success, rows + [WordRow(last).p]))
  }

  lemma RawStep(x: Word, raw: bytes, t: bytes)
    requires IsRaw(x)
    ensures Query((x.w + ([x.sep] + raw)) + t) == WordThen(x.w, Query(raw + t))
  {
    Assoc(x.w, [x.sep] + raw, t);
    Assoc([x.sep], raw, t);
    WordInFront(x.w, [x.sep] + (raw + t));
    assert ([x.sep] + (raw + t))[1..] == raw + t;
  }

  lemma AnswerGrows(q: Answer, p: Param, rows: seq<Param>, last: bytes, tail: bytes)
    requires AnswerIs(q, rows, last, tail)
    ensures AnswerIs(WithRow(p, q), [p] + rows, last, tail)
  {
    if last != [] && WordRow(last).Row? { Assoc([p], rows, [WordRow(last).p]); }
  }

  /** The words in front of a last one add their rows, in order, and empty ones nothing; then
      the last decides: it adds its row too, or is refused and the rest is not looked at. */
  lemma {:induction false} QueryOfWords(ws: seq<Word>, last: bytes, tail: bytes)
    requires AllDecode(ws) && (forall i :: 0 <= i < |ws| ==> IsRaw(ws[i])) && NoWordEnd(last)
    requires tail != [] ==> EndsWord(tail[0])
    ensures AnswerIs(Query(Raw(ws) + (last + tail)), RowsOf(ws), last, tail)
  {
    var t := last + tail;
    if ws == [] {
      WordInFront(last, tail);
      assert [] + t == t;
    } else {
      var x, q := ws[0], Query(Raw(ws[1..]) + t);
      QueryOfWords(ws[1..], last, tail);
      RawStep(x, Raw(ws[1..]), t);
      if x.w == [] {
        assert [] + RowsOf(ws[1..]) == RowsOf(ws[1..]);
      } else {
        AnswerGrows(q, WordRow(x.w).p, RowsOf(ws[1..]), last, tail);
      }
    }
  }
}
