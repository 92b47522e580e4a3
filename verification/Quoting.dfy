/** Quoted strings (library/util.c): is_quoted, apreq_quote and apreq_quote_once. */
module Quoting {
  import opened Bytes

  const ZERO_DIGIT: byte := 48

  /** What a byte becomes between quotes. */
  function Escaped(c: byte): bytes {
    if c == 0 then [BACKSLASH, ZERO_DIGIT]
    else if c == BACKSLASH || c == QUOTE then [BACKSLASH, c]
    else [c]
  }

  function EscapeAll(s: bytes): bytes {
    if s == [] then [] else Escaped(s[0]) + EscapeAll(s[1..])
  }

  /** apreq_quote: the empty string stays as it is. */
  function Quote(s: bytes): bytes {
    if s == [] then [] else [QUOTE] + EscapeAll(s) + [QUOTE]
  }

  /** The loop of is_quoted over what stands between the quotes. */
  predicate BodyOk(s: bytes, backslash: bool)
    decreases |s|
  {
    if s == [] then !backslash
    else if s[0] == BACKSLASH then BodyOk(s[1..], !backslash)
    else s[0] != 0 && (s[0] == QUOTE ==> backslash) && BodyOk(s[1..], false)
  }

  predicate IsQuoted(s: bytes) {
    |s| > 1 && s[0] == QUOTE && s[|s| - 1] == QUOTE && BodyOk(s[1..|s| - 1], false)
  }

  function QuoteOnce(s: bytes): bytes { if IsQuoted(s) then s else Quote(s) }

  // ------------------------------------------------------------ the loops

  /** is_quoted */
  method CheckQuoted(p: bytes) returns (r: bool)
    ensures r == IsQuoted(p)
  {
    if |p| > 1 && p[0] == QUOTE && p[|p| - 1] == QUOTE {
      var backslash, i := false, 1;
      while i < |p| - 1
        invariant 1 <= i <= |p| - 1
        invariant BodyOk(p[1..|p| - 1], false) == BodyOk(p[i..|p| - 1], backslash)
      {
        assert p[i..|p| - 1][1..] == p[i + 1..|p| - 1];
        if p[i] == BACKSLASH {
          backslash := !backslash;
        } else if p[i] == 0 || (p[i] == QUOTE && !backslash) {
          return false;
        } else {
          backslash := false;
        }
        i := i + 1;
      }
      return !backslash;
    }
    return false;
  }

  lemma {:induction false} EscapeConcat(a: bytes, b: bytes)
    ensures EscapeAll(a + b) == EscapeAll(a) + EscapeAll(b)
  {
    if a == [] {
      assert a + b == b;
    } else {
      EscapeConcat(a[1..], b);
      TailOfConcat(a, b, 1);
      Assoc(Escaped(a[0]), EscapeAll(a[1..]), EscapeAll(b));
    }
  }

  lemma EscapeSnoc(s: bytes, i: nat)
    requires i < |s|
    ensures EscapeAll(s[..i + 1]) == EscapeAll(s[..i]) + Escaped(s[i])
  {
    assert s[..i + 1] == s[..i] + [s[i]];
    EscapeConcat(s[..i], [s[i]]);
    assert EscapeAll([s[i]]) == Escaped(s[i]) + EscapeAll([s[i]][1..]);
  }

  /** apreq_quote */
  method QuoteString(src: bytes) returns (dest: bytes)
    ensures dest == Quote(src)
  {
    if src == [] {
      return [];
    }
    dest := [QUOTE];
    var s := 0;
    while s < |src|
      invariant s <= |src| && dest == [QUOTE] + EscapeAll(src[..s])
    {
      EscapeSnoc(src, s);
      if src[s] == 0 {
        dest := dest + [BACKSLASH, ZERO_DIGIT];
      } else {
        if src[s] == BACKSLASH || src[s] == QUOTE {
          dest := dest + [BACKSLASH];
        }
        dest := dest + [src[s]];
      }
      s := s + 1;
    }
    assert src[..s] == src;
    dest := dest + [QUOTE];
  }

  /** apreq_quote_once */
  method QuoteStringOnce(src: bytes) returns (dest: bytes)
    ensures dest == QuoteOnce(src)
  {
    var quoted := CheckQuoted(src);
    if quoted {
      dest := src;
    } else {
      dest := QuoteString(src);
    }
  }

  // ------------------------------------------------------------ laws

  lemma {:induction false} EscapedBodyOk(s: bytes)
    ensures BodyOk(EscapeAll(s), false) && |s| <= |EscapeAll(s)| <= 2 * |s|
  {
    if s != [] {
      EscapedBodyOk(s[1..]);
      var e, t := Escaped(s[0]), EscapeAll(s[1..]);
      assert (e + t)[1..] == e[1..] + t;
      assert |e| == 2 ==> (e + t)[1..][1..] == t;
      assert |e| == 1 ==> (e + t)[1..] == t;
    }
  }

  /** A character between quotes: plain, or behind a backslash. */
  datatype Char = Clear(c: byte) | Backslashed(c: byte)

  predicate CharOk(x: Char) { x.c != 0 && (x.Clear? ==> x.c != QUOTE && x.c != BACKSLASH) }

  function CharsText(xs: seq<Char>): bytes {
    if xs == [] then []
    else (match xs[0] case Clear(c) => [c] case Backslashed(c) => [BACKSLASH, c]) + CharsText(xs[1..])
  }

  predicate CharsOk(xs: seq<Char>) { forall i :: 0 <= i < |xs| ==> CharOk(xs[i]) }

  lemma {:induction false} TextBodyOk(xs: seq<Char>)
    requires CharsOk(xs)
    ensures BodyOk(CharsText(xs), false)
  {
    if xs != [] {
      TextBodyOk(xs[1..]);
      var t, more := CharsText(xs), CharsText(xs[1..]);
      match xs[0]
      case Clear(c) => assert t[0] == c && t[1..] == more;
      case Backslashed(c) =>
        assert t[0] == BACKSLASH && t[1..][0] == c && t[1..][1..] == more;
    }
  }

  lemma {:induction false} BodyIsText(s: bytes) returns (xs: seq<Char>)
    requires BodyOk(s, false)
    ensures CharsOk(xs) && s == CharsText(xs)
    decreases |s|
  {
    xs := [];
    if s != [] {
      var x := if s[0] == BACKSLASH then Backslashed(s[1]) else Clear(s[0]);
      var n := if x.Backslashed? then 2 else 1;
      assert s[1..] != [] ==> s[1..][0] == s[1] && s[1..][1..] == s[2..];
      var more := BodyIsText(s[n..]);
      xs := [x] + more;
      assert xs[1..] == more && s == s[..n] + s[n..];
    }
  }

  /** A string counts as quoted exactly if it is plain and backslashed characters between
      quotes. */
  lemma QuotedExactly(s: bytes)
    ensures IsQuoted(s) <==> exists xs :: CharsOk(xs) && s == [QUOTE] + CharsText(xs) + [QUOTE]
  {
    if IsQuoted(s) {
      var xs := BodyIsText(s[1..|s| - 1]);
      assert s == [QUOTE] + s[1..|s| - 1] + [QUOTE];
    }
    if exists xs :: CharsOk(xs) && s == [QUOTE] + CharsText(xs) + [QUOTE] {
      var xs :| CharsOk(xs) && s == [QUOTE] + CharsText(xs) + [QUOTE];
      TextBodyOk(xs);
      assert s[1..|s| - 1] == CharsText(xs);
    }
  }

  /** Every nonempty quoted string is recognised, at no more than 2n + 2 bytes. */
  lemma QuotedIsQuoted(s: bytes)
    ensures s != [] ==> IsQuoted(Quote(s))
    ensures |Quote(s)| <= 2 * |s| + 2
  {
    EscapedBodyOk(s);
    var q := Quote(s);
    assert s != [] ==> q[1..|q| - 1] == EscapeAll(s);
  }

  /** Quoting once is quoting once. */
  lemma QuoteOnceIsIdempotent(s: bytes)
    ensures QuoteOnce(QuoteOnce(s)) == QuoteOnce(s)
  {
    QuotedIsQuoted(s);
  }

  lemma {:induction false} EscapeIsInjective(a: bytes, b: bytes)
    requires EscapeAll(a) == EscapeAll(b)
    ensures a == b
    decreases |a|
  {
    EscapedBodyOk(a);
    EscapedBodyOk(b);
    if a != [] && b != [] {
      var x, y := Escaped(a[0]), Escaped(b[0]);
      var u := EscapeAll(a);
      assert u[0] == x[0] == y[0];
      assert |x| == 2 ==> u[1] == x[1];
      assert |y| == 2 ==> u[1] == y[1];
      assert u[|x|..] == EscapeAll(a[1..]) && u[|y|..] == EscapeAll(b[1..]);
      EscapeIsInjective(a[1..], b[1..]);
      assert a == [a[0]] + a[1..] && b == [b[0]] + b[1..];
    }
  }

  /** No two strings are quoted alike. */
  lemma QuoteIsInjective(a: bytes, b: bytes)
    requires Quote(a) == Quote(b)
    ensures a == b
  {
    if a != [] && b != [] {
      var q := Quote(a);
      assert q[1..|q| - 1] == EscapeAll(a) && q[1..|q| - 1] == EscapeAll(b);
      EscapeIsInjective(a, b);
    }
  }
}
