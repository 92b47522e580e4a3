/** Laws of header attributes: what the scans of apreq_header_attribute accept on any header,
    and what a printed list of attributes answers. */
module AttributeLaws {
  import opened Bytes
  import opened HeaderAttributes

  // ------------------------------------------------------------ stretches of a header

  predicate AllBlank(s: bytes) { forall i :: 0 <= i < |s| ==> IsBlank(s[i]) }

  function TrimEnd(s: bytes): bytes {
    if s != [] && IsBlank(s[|s| - 1]) then TrimEnd(s[..|s| - 1]) else s
  }

  /** s without the blanks around it. */
  function Trim(s: bytes): bytes {
    if s != [] && IsBlank(s[0]) then Trim(s[1..]) else TrimEnd(s)
  }

  predicate EndsValue(c: byte) { EndsHeader(c) || c == SEMI || c == COMMA }

  predicate EndsName(c: byte) { EndsValue(c) || c == EQUALS }

  predicate BlanksAt(h: bytes, i: nat, j: nat) { i <= j <= |h| && forall k :: i <= k < j ==> IsBlank(h[k]) }

  /** h[i..e] is a stretch for a value, up to the first byte that ends one. */
  predicate ValueTo(h: bytes, i: nat, e: nat) {
    i <= e <= |h| && EndsValue(At(h, e)) && forall k :: i <= k < e ==> !EndsValue(h[k])
  }

  predicate NameTo(h: bytes, i: nat, e: nat) {
    i <= e <= |h| && EndsName(At(h, e)) && forall k :: i <= k < e ==> !EndsName(h[k])
  }

  /** No control characters but tabs. */
  predicate CleanAt(h: bytes, i: nat, e: nat) {
    i <= e <= |h| && forall k :: i <= k < e ==> !IsCntrl(h[k]) || IsBlank(h[k])
  }

  /** h[s..t] is what is left of h[i..e] without the blanks around it. */
  predicate Inner(h: bytes, i: nat, e: nat, s: nat, t: nat) {
    && i <= s <= t <= e <= |h| && BlanksAt(h, i, s) && BlanksAt(h, t, e)
    && (s < t ==> !IsBlank(h[s]) && !IsBlank(h[t - 1]))
  }

  lemma {:induction false} TrimsEnd(h: bytes, s: nat, t: nat, e: nat)
    requires s <= t <= e <= |h| && BlanksAt(h, t, e) && (s < t ==> !IsBlank(h[t - 1]))
    ensures TrimEnd(h[s..e]) == h[s..t]
    decreases e - t
  {
    if t < e {
      assert h[s..e][..e - 1 - s] == h[s..e - 1];
      TrimsEnd(h, s, t, e - 1);
    }
  }

  lemma {:induction false} Trims(h: bytes, i: nat, e: nat, s: nat, t: nat)
    requires Inner(h, i, e, s, t)
    ensures Trim(h[i..e]) == h[s..t]
    decreases s - i
  {
    if i < s {
      assert h[i..e][1..] == h[i + 1..e];
      Trims(h, i + 1, e, s, t);
    } else if s < t {
      TrimsEnd(h, s, t, e);
    } else {
      TrimsBlanks(h, i, e);
    }
  }

  lemma {:induction false} TrimsBlanks(h: bytes, i: nat, e: nat)
    requires BlanksAt(h, i, e)
    ensures Trim(h[i..e]) == []
    decreases e - i
  {
    if i < e {
      assert h[i..e][1..] == h[i + 1..e];
      TrimsBlanks(h, i + 1, e);
    }
  }

  // ------------------------------------------------------------ bare values

  /** Where the scan of a value stands. */
  predicate ValueSoFar(h: bytes, v: nat, start: nat, i: nat, tail: nat) {
    start + tail <= i && Inner(h, v, i, start, i - tail) && (start == i || start < i - tail)
  }

  lemma BlankInValue(h: bytes, v: nat, start: nat, i: nat, tail: nat)
    requires ValueSoFar(h, v, start, i, tail) && i < |h| && IsBlank(h[i])
    ensures if i == start then ValueSoFar(h, v, start + 1, i + 1, tail) else ValueSoFar(h, v, start, i + 1, tail + 1)
  {
  }

  lemma ByteInValue(h: bytes, v: nat, start: nat, i: nat, tail: nat)
    requires ValueSoFar(h, v, start, i, tail) && i < |h| && !IsBlank(h[i])
    ensures ValueSoFar(h, v, start, i + 1, 0)
  {
  }

  /** The scan has found the value of the stretch that ends at e. */
  predicate ValueFound(h: bytes, v: nat, e: nat, r: Scan) {
    && r.st == Success && e <= |h| && r.stop == e && r.done == EndsHeader(At(h, e))
    && Inner(h, v, e, r.start, r.end)
  }

  lemma {:induction false} ValueScan(h: bytes, v: nat, start: nat, i: nat, tail: nat, e: nat)
    requires ValueSoFar(h, v, start, i, tail) && v <= i <= e && ValueTo(h, v, e) && CleanAt(h, v, e)
    ensures ValueFound(h, v, e, ScanValue(h, start, i, tail))
    decreases e - i
  {
    if i < e {
      if IsBlank(h[i]) {
        BlankInValue(h, v, start, i, tail);
        if i == start {
          ValueScan(h, v, start + 1, i + 1, tail, e);
        } else {
          ValueScan(h, v, start, i + 1, tail + 1, e);
        }
      } else {
        ByteInValue(h, v, start, i, tail);
        ValueScan(h, v, start, i + 1, 0, e);
      }
    }
  }

  lemma {:induction false} ValueFails(h: bytes, v: nat, start: nat, i: nat, tail: nat, e: nat)
    requires start + tail <= i && v <= i <= e && ValueTo(h, v, e) && CleanAt(h, v, i) && !CleanAt(h, v, e)
    ensures ScanValue(h, start, i, tail) == NoScan
    decreases e - i
  {
    if i < e {
      if IsBlank(h[i]) {
        if i == start {
          ValueFails(h, v, start + 1, i + 1, tail, e);
        } else {
          ValueFails(h, v, start, i + 1, tail + 1, e);
        }
      } else if !IsCntrl(h[i]) {
        ValueFails(h, v, start, i + 1, 0, e);
      }
    }
  }

  /** The blanks in front of a value. */
  lemma {:induction false} SkipBlanksIs(h: bytes, v: nat, e: nat)
    requires ValueTo(h, v, e)
    ensures
      var i := SkipBlanks(h, v);
      v <= i <= e && BlanksAt(h, v, i) && (i < e ==> !IsBlank(h[i]))
    decreases e - v
  {
    if v < e && IsBlank(h[v]) { SkipBlanksIs(h, v + 1, e); }
  }

  /** A value without quotes is all up to ';', ',', CR, LF, NUL or the end, without the
      blanks around it; a control character in it is an error. */
  lemma BareValueIs(h: bytes, v: nat, e: nat)
    requires ValueTo(h, v, e) && (Trim(h[v..e]) == [] || Trim(h[v..e])[0] != QUOTE)
    ensures ReadValue(h, v) ==
            if CleanAt(h, v, e) then Piece(Success, Trim(h[v..e]), e, EndsHeader(At(h, e))) else Piece(BadChar, [], 0, true)
  {
    SkipBlanksIs(h, v, e);
    var i := SkipBlanks(h, v);
    BareFrom(h, v, i, e);
    if CleanAt(h, v, e) {
      ValueScan(h, v, i, i, 0, e);
      var s := ScanValue(h, i, i, 0);
      Trims(h, v, e, s.start, s.end);
    } else {
      ValueFails(h, v, i, i, 0, e);
    }
  }

  /** The first byte that is no blank is not a quote. */
  lemma BareFrom(h: bytes, v: nat, i: nat, e: nat)
    requires ValueTo(h, v, e) && BlanksAt(h, v, i) && i <= e && (i < e ==> !IsBlank(h[i]))
    requires Trim(h[v..e]) == [] || Trim(h[v..e])[0] != QUOTE
    ensures At(h, i) != QUOTE
  {
    if i < e {
      var t := LastNonBlank(h, i, e);
      Trims(h, v, e, i, t);
      assert h[i..t][0] == h[i];
    }
  }

  lemma {:induction false} LastNonBlank(h: bytes, i: nat, e: nat) returns (t: nat)
    requires i < e <= |h| && !IsBlank(h[i])
    ensures i < t <= e && !IsBlank(h[t - 1]) && BlanksAt(h, t, e)
    decreases e - i
  {
    if IsBlank(h[e - 1]) { t := LastNonBlank(h, i, e - 1); } else { t := e; }
  }

  // ------------------------------------------------------------ quoted values

  /** What can stand between quotes: a backslash takes any one byte but NUL with it. */
  predicate QuotedBody(s: bytes)
    decreases |s|
  {
    s == [] ||
    if s[0] == BACKSLASH then |s| > 1 && s[1] != 0 && QuotedBody(s[2..])
    else s[0] != QUOTE && !IsCntrl(s[0]) && QuotedBody(s[1..])
  }

  lemma {:induction false} ScanQuoteFinds(h: bytes, i: nat, q: nat)
    requires i <= q < |h| && h[q] == QUOTE && QuotedBody(h[i..q])
    ensures ScanQuote(h, i) == Scan(Success, 0, 0, q, true, false)
    decreases q - i
  {
    if i < q {
      var b := h[i..q];
      if b[0] == BACKSLASH {
        assert b[2..] == h[i + 2..q] && h[i + 1] == b[1];
        ScanQuoteFinds(h, i + 2, q);
      } else {
        assert b[1..] == h[i + 1..q];
        ScanQuoteFinds(h, i + 1, q);
      }
    }
  }

  lemma {:induction false} ScanQuoteOnly(h: bytes, i: nat)
    requires i <= |h| && ScanQuote(h, i).st == Success
    ensures
      var q := ScanQuote(h, i).stop;
      i <= q < |h| && h[q] == QUOTE && QuotedBody(h[i..q])
    decreases |h| - i
  {
    var q := ScanQuote(h, i).stop;
    if i < q {
      var b := h[i..q];
      if b[0] == BACKSLASH && At(h, i + 1) != 0 {
        ScanQuoteOnly(h, i + 2);
        assert b[2..] == h[i + 2..q] && b[1] == h[i + 1];
      } else {
        ScanQuoteOnly(h, i + 1);
        assert b[1..] == h[i + 1..q];
      }
    }
  }

  lemma {:induction false} ScanAfterIs(h: bytes, i: nat, e: nat)
    requires BlanksAt(h, i, e) && EndsValue(At(h, e))
    ensures ScanAfter(h, i) == Scan(Success, 0, 0, e, true, EndsHeader(At(h, e)))
    decreases e - i
  {
    if i < e { ScanAfterIs(h, i + 1, e); }
  }

  lemma {:induction false} SkipsTo(h: bytes, v: nat, i: nat)
    requires BlanksAt(h, v, i) && !IsBlank(At(h, i))
    ensures SkipBlanks(h, v) == i
    decreases i - v
  {
    if v < i { SkipsTo(h, v + 1, i); }
  }

  /** A value in quotes: what stands between them, as it stands, blanks being allowed around
      the quotes. */
  lemma QuotedValueIs(h: bytes, v: nat, i: nat, q: nat, e: nat)
    requires BlanksAt(h, v, i) && i < q < e <= |h| && h[i] == QUOTE && h[q] == QUOTE && QuotedBody(h[i + 1..q])
    requires BlanksAt(h, q + 1, e) && EndsValue(At(h, e))
    ensures ReadValue(h, v) == Piece(Success, h[i + 1..q], e, EndsHeader(At(h, e)))
  {
    SkipsTo(h, v, i);
    ScanQuoteFinds(h, i + 1, q);
    ScanAfterIs(h, q + 1, e);
  }

  // ------------------------------------------------------------ names

  /** A blank behind something that is none. */
  predicate GapBefore(h: bytes, p: nat, k: nat)
    requires k <= |h|
  {
    exists a, b :: p <= a < b < k && !IsBlank(h[a]) && IsBlank(h[b])
  }

  /** What may not stand in a name: a control character, or a second word. */
  predicate Breaks(h: bytes, p: nat, k: nat)
    requires k < |h|
  {
    !IsBlank(h[k]) && (IsCntrl(h[k]) || GapBefore(h, p, k))
  }

  predicate OneWord(h: bytes, p: nat, e: nat) {
    e <= |h| && forall k {:trigger Breaks(h, p, k)} :: p <= k < e ==> !Breaks(h, p, k)
  }

  predicate TokensAt(h: bytes, i: nat, j: nat) { i <= j <= |h| && forall k :: i <= k < j ==> IsToken(h[k]) }

  predicate NoBlanksAt(h: bytes, i: nat, j: nat) { i <= j <= |h| && forall k :: i <= k < j ==> !IsBlank(h[k]) }

  /** Where the scan of a name stands. */
  predicate NameSoFar(h: bytes, p: nat, start: nat, i: nat, tail: nat, token: bool) {
    && start + tail <= i && p <= start && i <= |h| && BlanksAt(h, p, start) && BlanksAt(h, i - tail, i)
    && NoBlanksAt(h, start, i - tail) && (start == i - tail ==> tail == 0) && token == TokensAt(h, start, i - tail)
  }

  lemma GapIs(h: bytes, p: nat, start: nat, i: nat, tail: nat, token: bool)
    requires NameSoFar(h, p, start, i, tail, token)
    ensures GapBefore(h, p, i) <==> tail > 0
  {
    if tail > 0 { assert !IsBlank(h[start]) && IsBlank(h[i - tail]); }
  }

  lemma BlankInName(h: bytes, p: nat, start: nat, i: nat, tail: nat, token: bool)
    requires NameSoFar(h, p, start, i, tail, token) && i < |h| && IsBlank(h[i])
    ensures if i == start then NameSoFar(h, p, start + 1, i + 1, tail, token)
            else NameSoFar(h, p, start, i + 1, tail + 1, token)
  {
  }

  lemma ByteInName(h: bytes, p: nat, start: nat, i: nat, token: bool)
    requires NameSoFar(h, p, start, i, 0, token) && i < |h| && !IsBlank(h[i])
    ensures NameSoFar(h, p, start, i + 1, 0, token && IsToken(h[i]))
  {
  }

  lemma WordGoesOn(h: bytes, p: nat, start: nat, i: nat, tail: nat, token: bool, e: nat)
    requires NameSoFar(h, p, start, i, tail, token) && p <= i < e && OneWord(h, p, e) && !IsBlank(h[i])
    ensures tail == 0 && !IsCntrl(h[i]) && NameSoFar(h, p, start, i + 1, 0, token && IsToken(h[i]))
  {
    GapIs(h, p, start, i, tail, token);
    assert !Breaks(h, p, i);
    ByteInName(h, p, start, i, token);
  }

  /** The scan has found the name of the stretch that ends at e. */
  predicate NameFound(h: bytes, p: nat, e: nat, r: Scan) {
    && r.st == Success && e <= |h| && r.stop == e && r.done == EndsHeader(At(h, e))
    && Inner(h, p, e, r.start, r.end) && r.token == TokensAt(h, r.start, r.end)
  }

  lemma NameDone(h: bytes, p: nat, start: nat, e: nat, tail: nat, token: bool)
    requires NameSoFar(h, p, start, e, tail, token) && EndsName(At(h, e))
    ensures NameFound(h, p, e, ScanName(h, start, e, tail, token))
  {
  }

  lemma {:induction false} NameScan(h: bytes, p: nat, start: nat, i: nat, tail: nat, token: bool, e: nat)
    requires NameSoFar(h, p, start, i, tail, token) && p <= i <= e && NameTo(h, p, e) && OneWord(h, p, e)
    ensures NameFound(h, p, e, ScanName(h, start, i, tail, token))
    decreases e - i
  {
    var r := ScanName(h, start, i, tail, token);
    if i == e {
      NameDone(h, p, start, e, tail, token);
    } else if IsBlank(h[i]) {
      BlankInName(h, p, start, i, tail, token);
      if i == start {
        assert r == ScanName(h, start + 1, i + 1, tail, token);
        NameScan(h, p, start + 1, i + 1, tail, token, e);
      } else {
        assert r == ScanName(h, start, i + 1, tail + 1, token);
        NameScan(h, p, start, i + 1, tail + 1, token, e);
      }
    } else {
      WordGoesOn(h, p, start, i, tail, token, e);
      assert r == ScanName(h, start, i + 1, 0, token && IsToken(h[i]));
      NameScan(h, p, start, i + 1, 0, token && IsToken(h[i]), e);
    }
  }

  /** The first byte that may not stand there decides the error. */
  lemma {:induction false} NameFails(h: bytes, p: nat, start: nat, i: nat, tail: nat, token: bool, k: nat, e: nat)
    requires NameSoFar(h, p, start, i, tail, token) && p <= i <= k < e && NameTo(h, p, e)
    requires OneWord(h, p, k) && Breaks(h, p, k)
    ensures ScanName(h, start, i, tail, token) == NoScan.(st := if IsCntrl(h[k]) then BadChar else BadAttr)
    decreases k - i
  {
    if i < k {
      if IsBlank(h[i]) {
        BlankInName(h, p, start, i, tail, token);
        if i == start {
          NameFails(h, p, start + 1, i + 1, tail, token, k, e);
        } else {
          NameFails(h, p, start, i + 1, tail + 1, token, k, e);
        }
      } else {
        WordGoesOn(h, p, start, i, tail, token, k);
        NameFails(h, p, start, i + 1, 0, token && IsToken(h[i]), k, e);
      }
    } else {
      GapIs(h, p, start, i, tail, token);
    }
  }

  /** A name is all up to '=', ';', ',', CR, LF, NUL or the end, without the blanks around
      it, if that is one word without control characters. */
  lemma NameIs(h: bytes, p: nat, e: nat)
    requires NameTo(h, p, e)
    ensures
      var r := ScanName(h, p, p, 0, true);
      && (OneWord(h, p, e) ==>
            NameFound(h, p, e, r) && h[r.start..r.end] == Trim(h[p..e]))
      && (forall k :: p <= k < e && OneWord(h, p, k) && Breaks(h, p, k) ==>
            r == NoScan.(st := if IsCntrl(h[k]) then BadChar else BadAttr))
  {
    if OneWord(h, p, e) {
      NameScan(h, p, p, p, 0, true, e);
      var r := ScanName(h, p, p, 0, true);
      Trims(h, p, e, r.start, r.end);
    }
    forall k | p <= k < e && OneWord(h, p, k) && Breaks(h, p, k)
      ensures ScanName(h, p, p, 0, true) == NoScan.(st := if IsCntrl(h[k]) then BadChar else BadAttr)
    {
      NameFails(h, p, p, p, 0, true, k, e);
    }
  }

  // ------------------------------------------------------------ printed attributes

  /** A value as it is written. */
  datatype Text = Bare(v: bytes) | Quoted(v: bytes)

  /** One attribute as it is written, with optional blanks around all of it, and the separator
      behind it unless it is the last. Without a value it is a word of its own. */
  datatype Written =
    Written(lead: bytes, name: bytes, gap: bytes, value: Option<Text>, pre: bytes, post: bytes, sep: byte)

  function TextOf(t: Text): bytes { match t case Bare(v) => v case Quoted(v) => [QUOTE] + v + [QUOTE] }

  function NameText(a: Written): bytes { a.lead + a.name + a.gap }

  function ValueText(a: Written): bytes
    requires a.value.Some?
  {
    a.pre + TextOf(a.value.value) + a.post
  }

  function AttrText(a: Written): bytes {
    NameText(a) + match a.value case None => [] case Some(_) => [EQUALS] + ValueText(a)
  }

  function PrintAttrs(attrs: seq<Written>): bytes {
    if attrs == [] then []
    else AttrText(attrs[0]) + if |attrs| == 1 then [] else [attrs[0].sep] + PrintAttrs(attrs[1..])
  }

  function ValueOf(a: Written): bytes { match a.value case None => [] case Some(t) => t.v }

  /** The attributes that a list stands for. */
  function Listed(attrs: seq<Written>): (es: seq<Entry>)
    ensures |es| == |attrs| && forall i :: 0 <= i < |es| ==> es[i] == Entry(attrs[i].name, ValueOf(attrs[i]))
  {
    seq(|attrs|, i requires 0 <= i < |attrs| => Entry(attrs[i].name, ValueOf(attrs[i])))
  }

  predicate IsTokenString(k: bytes) {
    k != [] && forall i :: 0 <= i < |k| ==> IsToken(k[i])
  }

  predicate TextOk(t: Text) {
    match t
    case Bare(v) =>
      && (forall i :: 0 <= i < |v| ==> !EndsValue(v[i]) && (IsBlank(v[i]) || !IsCntrl(v[i])))
      && (v != [] ==> v[0] != QUOTE && !IsBlank(v[0]) && !IsBlank(v[|v| - 1]))
    case Quoted(v) => QuotedBody(v)
  }

  /** A name in front of an '=' is a token; a word of its own is free of blanks, separators
      and control characters. */
  predicate WrittenOk(a: Written) {
    && AllBlank(a.lead) && AllBlank(a.gap) && AllBlank(a.pre) && AllBlank(a.post)
    && (a.sep == SEMI || a.sep == COMMA)
    && match a.value
       case Some(t) => IsTokenString(a.name) && TextOk(t)
       case None => forall i :: 0 <= i < |a.name| ==> !EndsName(a.name[i]) && !IsBlank(a.name[i]) && !IsCntrl(a.name[i])
  }

  predicate Printable(attrs: seq<Written>) { attrs != [] && forall i :: 0 <= i < |attrs| ==> WrittenOk(attrs[i]) }

  /** The header ends behind the list. */
  predicate EndsThere(rest: bytes) { rest == [] || EndsHeader(rest[0]) }

  /** The first entry whose name matches, or APREQ_ERROR_NOATTR. */
  function FirstAttr(es: seq<Entry>, name: bytes): Attr {
    match Lookup(es, name)
    case Some(v) => Attr(Success, v)
    case None => Attr(NoAttr, [])
  }

  // ------------------------------------------------------------ one attribute

  lemma Laid(h: bytes, p: nat, x: bytes, y: bytes, q: nat)
    requires p <= |h| && h[p..] == x + y && q == p + |x|
    ensures q <= |h| && h[p..q] == x && h[q..] == y && At(h, q) == At(y, 0)
  {
    assert h[p..q] == h[p..][..|x|];
    assert h[q..] == h[p..][|x|..];
    if y != [] { assert h[q] == h[q..][0]; }
  }

  lemma SliceHas(h: bytes, i: nat, e: nat, x: bytes, k: nat)
    requires i <= k < e <= |h| && h[i..e] == x
    ensures h[k] == x[k - i]
  {
  }

  lemma BlanksLie(h: bytes, i: nat, e: nat, x: bytes)
    requires i <= e <= |h| && h[i..e] == x && AllBlank(x)
    ensures BlanksAt(h, i, e)
  {
    forall k | i <= k < e
      ensures IsBlank(h[k])
    {
      SliceHas(h, i, e, x, k);
    }
  }

  lemma TokenEndsNoName(c: byte)
    requires IsToken(c)
    ensures !EndsName(c) && !IsBlank(c) && !IsCntrl(c)
  {
  }

  /** The three parts of a stretch. */
  lemma ThreeParts(h: bytes, p: nat, e: nat, x: bytes, y: bytes, z: bytes, s: nat, t: nat)
    requires p <= e <= |h| && h[p..e] == x + y + z && s == p + |x| && t == s + |y|
    ensures t <= e && h[p..s] == x && h[s..t] == y && h[t..e] == z
  {
    var w, i, j := h[p..e], |x|, |x| + |y|;
    SubSlice(h, p, e, 0, i, p, s);
    SubSlice(h, p, e, i, j, s, t);
    SubSlice(h, p, e, j, |w|, t, e);
    assert w[0..i] == x && w[i..j] == y && w[j..|w|] == z;
  }

  lemma SubSlice(h: bytes, p: nat, e: nat, i: nat, j: nat, s: nat, t: nat)
    requires p <= e <= |h| && i <= j <= e - p && s == p + i && t == p + j
    ensures h[p..e][i..j] == h[s..t]
  {
  }

  predicate NameBytes(n: bytes) {
    forall i :: 0 <= i < |n| ==> !EndsName(n[i]) && !IsBlank(n[i]) && !IsCntrl(n[i])
  }

  lemma NameIsBytes(a: Written)
    requires WrittenOk(a)
    ensures NameBytes(a.name)
  {
    if a.value.Some? {
      forall i | 0 <= i < |a.name|
        ensures !EndsName(a.name[i]) && !IsBlank(a.name[i]) && !IsCntrl(a.name[i])
      {
        TokenEndsNoName(a.name[i]);
      }
    }
  }

  /** A word between blanks is one word up to what ends it. */
  lemma NameStretch(h: bytes, p: nat, e: nat, s: nat, t: nat)
    requires p <= s <= t <= e <= |h| && BlanksAt(h, p, s) && BlanksAt(h, t, e) && EndsName(At(h, e))
    requires NameBytes(h[s..t])
    ensures NameTo(h, p, e) && OneWord(h, p, e) && Inner(h, p, e, s, t)
  {
    forall k | s <= k < t
      ensures !EndsName(h[k]) && !IsBlank(h[k]) && !IsCntrl(h[k])
    {
      SliceHas(h, s, t, h[s..t], k);
    }
    forall k | p <= k < e
      ensures !Breaks(h, p, k)
    {
      if s <= k < t {
        assert forall a, b :: p <= a < b < k && !IsBlank(h[a]) ==> !IsBlank(h[b]);
      }
    }
  }

  lemma NameReads(h: bytes, p: nat, e: nat, a: Written)
    requires WrittenOk(a) && p <= e <= |h| && h[p..e] == NameText(a) && EndsName(At(h, e))
    ensures
      var r := ScanName(h, p, p, 0, true);
      NameFound(h, p, e, r) && h[r.start..r.end] == a.name && r.token == (forall i :: 0 <= i < |a.name| ==> IsToken(a.name[i]))
  {
    var s := p + |a.lead|;
    var t := s + |a.name|;
    ThreeParts(h, p, e, a.lead, a.name, a.gap, s, t);
    BlanksLie(h, p, s, a.lead);
    BlanksLie(h, t, e, a.gap);
    NameIsBytes(a);
    NameStretch(h, p, e, s, t);
    NameIs(h, p, e);
    Trims(h, p, e, s, t);
    TokensLie(h, ScanName(h, p, p, 0, true).start, ScanName(h, p, p, 0, true).end, a.name);
  }

  lemma TokensLie(h: bytes, i: nat, e: nat, x: bytes)
    requires i <= e <= |h| && h[i..e] == x
    ensures TokensAt(h, i, e) <==> forall k :: 0 <= k < |x| ==> IsToken(x[k])
  {
    if TokensAt(h, i, e) {
      forall k | 0 <= k < |x|
        ensures IsToken(x[k])
      {
        SliceHas(h, i, e, x, i + k);
      }
    }
    if forall k :: 0 <= k < |x| ==> IsToken(x[k]) {
      forall k | i <= k < e
        ensures IsToken(h[k])
      {
        SliceHas(h, i, e, x, k);
      }
    }
  }

  lemma BareReads(h: bytes, v: nat, s: nat, pre: bytes, b: bytes, post: bytes)
    requires v <= s <= |h| && h[v..s] == pre + b + post && EndsValue(At(h, s))
    requires AllBlank(pre) && AllBlank(post) && TextOk(Bare(b))
    ensures ReadValue(h, v) == Piece(Success, b, s, EndsHeader(At(h, s)))
  {
    var i := v + |pre|;
    var j := i + |b|;
    ThreeParts(h, v, s, pre, b, post, i, j);
    BlanksLie(h, v, i, pre);
    BlanksLie(h, j, s, post);
    forall k | v <= k < s
      ensures !EndsValue(h[k]) && (IsBlank(h[k]) || !IsCntrl(h[k]))
    {
      if i <= k < j { SliceHas(h, i, j, b, k); }
    }
    if b == [] {
      BlanksJoin(h, v, i, s);
      TrimsBlanks(h, v, s);
    } else {
      SliceHas(h, i, j, b, i);
      SliceHas(h, i, j, b, j - 1);
      Trims(h, v, s, i, j);
    }
    BareValueIs(h, v, s);
  }

  lemma BlanksJoin(h: bytes, i: nat, j: nat, k: nat)
    requires BlanksAt(h, i, j) && BlanksAt(h, j, k)
    ensures BlanksAt(h, i, k)
  {
  }

  lemma QuotedReads(h: bytes, v: nat, s: nat, pre: bytes, b: bytes, post: bytes)
    requires v <= s <= |h| && h[v..s] == pre + ([QUOTE] + b + [QUOTE]) + post && EndsValue(At(h, s))
    requires AllBlank(pre) && AllBlank(post) && QuotedBody(b)
    ensures ReadValue(h, v) == Piece(Success, b, s, EndsHeader(At(h, s)))
  {
    var i := v + |pre|;
    var q := i + 1 + |b|;
    ThreeParts(h, v, s, pre, [QUOTE] + b + [QUOTE], post, i, q + 1);
    ThreeParts(h, i, q + 1, [QUOTE], b, [QUOTE], i + 1, q);
    assert h[i..i + 1][0] == h[i] && h[q..q + 1][0] == h[q];
    BlanksLie(h, v, i, pre);
    BlanksLie(h, q + 1, s, post);
    QuotedValueIs(h, v, i, q, s);
  }

  lemma ValueReads(h: bytes, v: nat, s: nat, a: Written)
    requires WrittenOk(a) && a.value.Some? && v <= s <= |h| && h[v..s] == ValueText(a) && EndsValue(At(h, s))
    ensures ReadValue(h, v) == Piece(Success, ValueOf(a), s, EndsHeader(At(h, s)))
  {
    match a.value.value
    case Bare(b) => BareReads(h, v, s, a.pre, b, a.post);
    case Quoted(b) => QuotedReads(h, v, s, a.pre, b, a.post);
  }

  /** The lookup answers at a, or goes on behind the byte at s. */
  ghost predicate TurnAnswers(h: bytes, p: nat, a: Written, s: nat, name: bytes) {
    && p <= s <= |h| && EndsValue(At(h, s))
    && AttributeFrom(h, p, name) ==
         if SameNoCase(a.name, name) then Attr(Success, ValueOf(a))
         else if EndsHeader(At(h, s)) then Attr(NoAttr, [])
         else AttributeFrom(h, s + 1, name)
  }

  lemma WordTurn(h: bytes, p: nat, a: Written, s: nat, name: bytes)
    requires WrittenOk(a) && a.value.None? && p <= s <= |h| && h[p..s] == NameText(a) && EndsValue(At(h, s))
    ensures TurnAnswers(h, p, a, s, name)
  {
    NameReads(h, p, s, a);
  }

  lemma ValueTurn(h: bytes, p: nat, a: Written, e: nat, s: nat, name: bytes)
    requires WrittenOk(a) && a.value.Some? && p <= e < s <= |h| && EndsValue(At(h, s))
    requires h[p..e] == NameText(a) && h[e] == EQUALS && h[e + 1..s] == ValueText(a)
    ensures TurnAnswers(h, p, a, s, name)
  {
    NameReads(h, p, e, a);
    ValueReads(h, e + 1, s, a);
    NamedTurn(h, p, e, s, ScanName(h, p, p, 0, true), a, name);
  }

  lemma NamedTurn(h: bytes, p: nat, e: nat, s: nat, r: Scan, a: Written, name: bytes)
    requires p <= e < s <= |h| && EndsValue(At(h, s)) && h[e] == EQUALS && a.name != []
    requires r == ScanName(h, p, p, 0, true) && r.st == Success && r.stop == e && r.token
    requires r.start <= r.end <= |h| && h[r.start..r.end] == a.name
    requires ReadValue(h, e + 1) == Piece(Success, ValueOf(a), s, EndsHeader(At(h, s)))
    ensures TurnAnswers(h, p, a, s, name)
  {
    TurnUnfolds(h, p, name, r, ReadValue(h, e + 1), a.name);
  }

  lemma TurnUnfolds(h: bytes, p: nat, name: bytes, r: Scan, q: Piece, n: bytes)
    requires p <= |h| && r == ScanName(h, p, p, 0, true) && r.st == Success && r.token && r.start != r.end
    requires At(h, r.stop) == EQUALS && q == ReadValue(h, r.stop + 1) && q.st == Success && n == h[r.start..r.end]
    ensures AttributeFrom(h, p, name) ==
            if SameNoCase(n, name) then Attr(Success, q.val)
            else if q.done then Attr(NoAttr, []) else AttributeFrom(h, q.stop + 1, name)
  {
  }

  /** One turn of the loop over a written attribute. */
  lemma AttrReads(h: bytes, p: nat, a: Written, more: bytes, name: bytes, s: nat)
    requires WrittenOk(a) && p <= |h| && h[p..] == AttrText(a) + more && EndsValue(At(more, 0)) && s == p + |AttrText(a)|
    ensures s <= |h| && h[s..] == more && At(h, s) == At(more, 0) && TurnAnswers(h, p, a, s, name)
  {
    Laid(h, p, AttrText(a), more, s);
    if a.value.None? {
      assert AttrText(a) == NameText(a);
      WordTurn(h, p, a, s, name);
    } else {
      var v, e := ValueText(a), p + |NameText(a)|;
      ValueLies(h, p, e, s, NameText(a), v);
      ValueTurn(h, p, a, e, s, name);
    }
  }

  lemma ValueLies(h: bytes, p: nat, e: nat, s: nat, n: bytes, v: bytes)
    requires p <= s <= |h| && h[p..s] == n + ([EQUALS] + v) && e == p + |n|
    ensures e < s && h[p..e] == n && h[e] == EQUALS && h[e + 1..s] == v
  {
    Assoc(n, [EQUALS], v);
    ThreeParts(h, p, s, n, [EQUALS], v, e, e + 1);
    assert h[e..e + 1][0] == h[e];
  }

  // ------------------------------------------------------------ a list of them

  lemma FirstAttrCons(es: seq<Entry>, name: bytes)
    requires es != []
    ensures FirstAttr(es, name) ==
            if SameNoCase(es[0].name, name) then Attr(Success, es[0].value)
            else if |es| == 1 then Attr(NoAttr, []) else FirstAttr(es[1..], name)
  {
    if |es| == 1 { assert Lookup(es[1..], name) == None; }
  }

  /** A written list of attributes answers every lookup as the list itself does. */
  lemma {:induction false} ListAnswers(h: bytes, p: nat, attrs: seq<Written>, rest: bytes, name: bytes)
    requires p <= |h| && Printable(attrs) && EndsThere(rest) && h[p..] == PrintAttrs(attrs) + rest
    ensures AttributeFrom(h, p, name) == FirstAttr(Listed(attrs), name)
    decreases |attrs|
  {
    ListedCons(attrs, name);
    if |attrs| == 1 {
      LastReads(h, p, attrs, rest, name);
    } else {
      var s := FirstReads(h, p, attrs, rest, name);
      ListAnswers(h, s + 1, attrs[1..], rest, name);
    }
  }

  lemma LastReads(h: bytes, p: nat, attrs: seq<Written>, rest: bytes, name: bytes)
    requires p <= |h| && Printable(attrs) && |attrs| == 1 && EndsThere(rest) && h[p..] == PrintAttrs(attrs) + rest
    ensures AttributeFrom(h, p, name) ==
            if SameNoCase(attrs[0].name, name) then Attr(Success, ValueOf(attrs[0])) else Attr(NoAttr, [])
  {
    ListSplits(attrs, rest, rest);
    AttrReads(h, p, attrs[0], rest, name, p + |AttrText(attrs[0])|);
  }

  lemma FirstReads(h: bytes, p: nat, attrs: seq<Written>, rest: bytes, name: bytes) returns (s: nat)
    requires p <= |h| && Printable(attrs) && |attrs| > 1 && h[p..] == PrintAttrs(attrs) + rest
    ensures s < |h| && h[s + 1..] == PrintAttrs(attrs[1..]) + rest
    ensures AttributeFrom(h, p, name) ==
            if SameNoCase(attrs[0].name, name) then Attr(Success, ValueOf(attrs[0])) else AttributeFrom(h, s + 1, name)
  {
    var more := PrintAttrs(attrs[1..]) + rest;
    ListSplits(attrs, rest, [attrs[0].sep] + more);
    s := SeparatedReads(h, p, attrs[0], more, name);
  }

  lemma SeparatedReads(h: bytes, p: nat, a: Written, more: bytes, name: bytes) returns (s: nat)
    requires p <= |h| && WrittenOk(a) && h[p..] == AttrText(a) + ([a.sep] + more)
    ensures s < |h| && h[s + 1..] == more
    ensures AttributeFrom(h, p, name) ==
            if SameNoCase(a.name, name) then Attr(Success, ValueOf(a)) else AttributeFrom(h, s + 1, name)
  {
    s := p + |AttrText(a)|;
    var tail := [a.sep] + more;
    assert At(tail, 0) == a.sep;
    AttrReads(h, p, a, tail, name, s);
    Laid(h, s, [a.sep], more, s + 1);
  }

  lemma ListedCons(attrs: seq<Written>, name: bytes)
    requires attrs != []
    ensures FirstAttr(Listed(attrs), name) ==
            if SameNoCase(attrs[0].name, name) then Attr(Success, ValueOf(attrs[0]))
            else if |attrs| == 1 then Attr(NoAttr, []) else FirstAttr(Listed(attrs[1..]), name)
  {
    FirstAttrCons(Listed(attrs), name);
    assert Listed(attrs[1..]) == Listed(attrs)[1..];
  }

  lemma ListSplits(attrs: seq<Written>, rest: bytes, more: bytes)
    requires attrs != []
    requires more == if |attrs| == 1 then rest else [attrs[0].sep] + (PrintAttrs(attrs[1..]) + rest)
    ensures PrintAttrs(attrs) + rest == AttrText(attrs[0]) + more
  {
    var t := AttrText(attrs[0]);
    if |attrs| == 1 {
      assert t + [] == t;
    } else {
      var tail := PrintAttrs(attrs[1..]);
      Assoc(t, [attrs[0].sep] + tail, rest);
      Assoc([attrs[0].sep], tail, rest);
    }
  }

  /** The header is a written list, and whatever follows the first CR, LF or NUL. */
  lemma PrintedAttributes(attrs: seq<Written>, rest: bytes, name: bytes)
    requires Printable(attrs) && EndsThere(rest) && name != []
    ensures Attribute(PrintAttrs(attrs) + rest, name) == FirstAttr(Listed(attrs), name)
  {
    var h := PrintAttrs(attrs) + rest;
    assert h[0..] == h;
    ListAnswers(h, 0, attrs, rest, name);
  }

  /** In front of an '=' there has to be a name, and it has to be a token. */
  lemma BadNameIs(h: bytes, e: nat, name: bytes)
    requires name != [] && NameTo(h, 0, e) && At(h, e) == EQUALS && OneWord(h, 0, e)
    ensures Trim(h[..e]) == [] ==> Attribute(h, name) == Attr(BadAttr, [])
    ensures Trim(h[..e]) != [] && !IsTokenString(Trim(h[..e])) ==> Attribute(h, name) == Attr(BadChar, [])
  {
    NameIs(h, 0, e);
    var r := ScanName(h, 0, 0, 0, true);
    assert h[0..e] == h[..e];
    TokensLie(h, r.start, r.end, Trim(h[..e]));
  }
}
