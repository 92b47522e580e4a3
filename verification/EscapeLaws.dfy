/** What percent-escapes mean: decoding succeeds exactly on strings that are written with plain
    characters, plus signs, two-digit escapes and %u escapes, and gives what they stand for. */
module EscapeLaws {
  import opened Bytes
  import opened UrlCodec
  import Charsets

  // ------------------------------------------------------------ digits

  /** The digit of a value, in either case. */
  function Digit(v: nat, upper: bool): byte
    requires v < 16
  {
    (if upper then "0123456789ABCDEF"[v] else "0123456789abcdef"[v]) as int
  }

  /** The i-th digit has value i, in either case. */
  lemma DigitValue(v: nat, upper: bool)
    requires v < 16
    ensures IsHexDigit(Digit(v, upper)) && HexValue(Digit(v, upper)) == v
  {
  }

  /** There are no other digits. */
  lemma DigitIs(c: byte) returns (v: nat, upper: bool)
    requires IsHexDigit(c)
    ensures v < 16 && c == Digit(v, upper)
  {
    v, upper := HexValue(c), c < 97;
  }

  // ------------------------------------------------------------ what is written

  /** A character as it is written: itself, a plus sign, %XX or %uXXXX, each digit in either
      case. */
  datatype Sym =
    | Plain(c: byte)
    | Plus
    | Hex(c: byte, up0: bool, up1: bool)
    | Wide(code: nat, big: bool, up0: bool, up1: bool, up2: bool, up3: bool)

  predicate SymOk(s: Sym) {
    match s
    case Plain(c) => 0 < c < 128 && c != PLUS && c != PERCENT
    case Wide(code, _, _, _, _, _) => code < 0x10000
    case _ => true
  }

  function SymText(s: Sym): bytes
    requires SymOk(s)
  {
    match s
    case Plain(c) => [c]
    case Plus => [PLUS]
    case Hex(c, a, b) => [PERCENT, Digit(c / 16, a), Digit(c % 16, b)]
    case Wide(code, big, a, b, c, d) =>
      [PERCENT, if big then 85 else 117, Digit(code / 4096, a), Digit(code / 256 % 16, b),
       Digit(code / 16 % 16, c), Digit(code % 16, d)]
  }

  function SymMeans(s: Sym): bytes
    requires SymOk(s)
  {
    match s
    case Plain(c) => [c]
    case Plus => [SPACE]
    case Hex(c, _, _) => [c]
    case Wide(code, _, _, _, _, _) => Charsets.Utf8Of(code)
  }

  predicate SymsOk(ss: seq<Sym>) { forall i :: 0 <= i < |ss| ==> SymOk(ss[i]) }

  function Text(ss: seq<Sym>): bytes
    requires SymsOk(ss)
  {
    if ss == [] then [] else SymText(ss[0]) + Text(ss[1..])
  }

  function Means(ss: seq<Sym>): bytes
    requires SymsOk(ss)
  {
    if ss == [] then [] else SymMeans(ss[0]) + Means(ss[1..])
  }

  /** %uXXXX stands for a UTF-8 form of its code point. */
  lemma WideMeans(s: Sym)
    requires SymOk(s) && s.Wide?
    ensures Charsets.Value(SymMeans(s)) == s.code
  {
    Charsets.ValueOfForm(s.code);
  }

  lemma QuadValue(code: nat, a: nat, b: nat, c: nat, d: nat)
    requires code < 0x10000 && a == code / 4096 && b == code / 256 % 16 && c == code / 16 % 16 && d == code % 16
    ensures (a * 16 + b) * 256 + (c * 16 + d) == code
  {
  }

  lemma HexFirst(c: byte, a: bool, b: bool, u: bytes)
    requires |u| >= 3 && u[..3] == SymText(Hex(c, a, b))
    ensures First(u) == Piece([c], 3)
  {
    DigitValue(c / 16, a);
    DigitValue(c % 16, b);
    assert u[0] == u[..3][0] && u[1] == u[..3][1] && u[2] == u[..3][2];
  }

  lemma WideFirst(s: Sym, u: bytes)
    requires SymOk(s) && s.Wide? && |u| >= 6 && u[..6] == SymText(s)
    ensures First(u) == Piece(SymMeans(s), 6)
  {
    var v := u[..6];
    assert forall i :: 0 <= i < 6 ==> u[i] == v[i];
    WideValue(s);
    assert HexQuad(u) == HexQuad(v);
  }

  lemma WideValue(s: Sym)
    requires SymOk(s) && s.Wide?
    ensures IsWide(SymText(s)) && HexQuad(SymText(s)) == s.code && !IsHexDigit(SymText(s)[1])
  {
    var code := s.code;
    DigitValue(code / 4096, s.up0);
    DigitValue(code / 256 % 16, s.up1);
    DigitValue(code / 16 % 16, s.up2);
    DigitValue(code % 16, s.up3);
    QuadValue(code, code / 4096, code / 256 % 16, code / 16 % 16, code % 16);
  }

  lemma SymFirst(s: Sym, t: bytes)
    requires SymOk(s)
    ensures First(SymText(s) + t) == Piece(SymMeans(s), |SymText(s)|)
  {
    var x, u := SymText(s), SymText(s) + t;
    assert u[..|x|] == x;
    match s
    case Plain(_) => assert u[0] == x[0];
    case Plus => assert u[0] == x[0];
    case Hex(c, a, b) => HexFirst(c, a, b, u);
    case Wide(_, _, _, _, _, _) => WideFirst(s, u);
  }

  /** Whatever is written like this decodes to what it stands for: any byte may be escaped,
      with digits of either case. */
  lemma {:induction false} TextDecodes(ss: seq<Sym>)
    requires SymsOk(ss)
    ensures Decode(Text(ss)) == Decoded(Success, Means(ss), |Text(ss)|)
  {
    if ss != [] {
      var e, t := SymText(ss[0]), Text(ss[1..]);
      TextDecodes(ss[1..]);
      SymFirst(ss[0], t);
      DecodeUnfolds(e + t, Piece(SymMeans(ss[0]), |e|));
      assert (e + t)[|e|..] == t;
    }
  }

  lemma TwoDigits(a: byte, b: byte) returns (s: Sym)
    requires IsHexDigit(a) && IsHexDigit(b)
    ensures s.Hex? && SymText(s) == [PERCENT, a, b] && SymMeans(s) == [Hex2(a, b)]
  {
    var v, up := DigitIs(a);
    var w, up' := DigitIs(b);
    DigitValue(v, up);
    DigitValue(w, up');
    PairValue(v, w, Hex2(a, b));
    s := Hex(Hex2(a, b), up, up');
  }

  lemma PairValue(v: nat, w: nat, c: nat)
    requires v < 16 && w < 16 && c == v * 16 + w
    ensures c / 16 == v && c % 16 == w
  {
  }

  lemma QuadDigits(a: nat, b: nat, c: nat, d: nat, code: nat)
    requires a < 16 && b < 16 && c < 16 && d < 16 && code == (a * 16 + b) * 256 + (c * 16 + d)
    ensures code < 0x10000 && code / 4096 == a && code / 256 % 16 == b && code / 16 % 16 == c && code % 16 == d
  {
  }

  lemma FourDigits(t: bytes) returns (s: Sym)
    requires t != [] && t[0] == PERCENT && IsWide(t)
    ensures s.Wide? && SymOk(s) && SymText(s) == t[..6] && SymMeans(s) == Charsets.Utf8Of(HexQuad(t))
  {
    var a, up0 := DigitIs(t[2]);
    var b, up1 := DigitIs(t[3]);
    var c, up2 := DigitIs(t[4]);
    var d, up3 := DigitIs(t[5]);
    DigitValue(a, up0);
    DigitValue(b, up1);
    DigitValue(c, up2);
    DigitValue(d, up3);
    QuadDigits(a, b, c, d, HexQuad(t));
    s := Wide(HexQuad(t), t[1] == 85, up0, up1, up2, up3);
  }

  lemma FirstIsSym(t: bytes) returns (s: Sym)
    requires t != [] && First(t).Piece?
    ensures SymOk(s) && First(t) == Piece(SymMeans(s), |SymText(s)|) && t == SymText(s) + t[|SymText(s)|..]
  {
    if t[0] == PLUS {
      s := Plus;
    } else if t[0] != PERCENT {
      s := Plain(t[0]);
    } else if HexAt(t, 1) && HexAt(t, 2) {
      s := TwoDigits(t[1], t[2]);
    } else {
      s := FourDigits(t);
    }
    assert SymText(s) == t[..|SymText(s)|];
  }

  /** And nothing else can be decoded. */
  lemma {:induction false} OnlyTextDecodes(t: bytes) returns (ss: seq<Sym>)
    requires Decode(t).st == Success
    ensures SymsOk(ss) && t == Text(ss) && Decode(t).out == Means(ss)
    decreases |t|
  {
    ss := [];
    if t != [] {
      var s := FirstIsSym(t);
      var rest := t[|SymText(s)|..];
      DecodeUnfolds(t, First(t));
      var more := OnlyTextDecodes(rest);
      ss := [s] + more;
      assert ss[1..] == more;
    }
  }

  // ------------------------------------------------------------ unfinished escapes

  /** The beginning of an escape. */
  predicate BeginsEscape(t: bytes) {
    && t != [] && t[0] == PERCENT
    && (|t| == 1 || (|t| == 2 && IsHexDigit(t[1]))
        || (IsU(t[1]) && |t| <= 5 && forall i :: 2 <= i < |t| ==> IsHexDigit(t[i])))
  }

  /** %u and a digit, and then something that is none: the code waits for six bytes. */
  predicate WaitsInVain(t: bytes) {
    && 4 <= |t| <= 5 && t[0] == PERCENT && IsU(t[1]) && HexAt(t, 2)
    && (!HexAt(t, 3) || (|t| == 5 && !HexAt(t, 4)))
  }

  lemma Completes(t: bytes) returns (r: bytes)
    requires BeginsEscape(t)
    ensures First(t + r).Piece?
  {
    r := if |t| == 1 then [48, 48] else if IsHexDigit(t[1]) then [48] else [48, 48, 48, 48][|t| - 2..];
    var u := t + r;
    assert forall i :: 0 <= i < |t| ==> u[i] == t[i];
  }

  lemma NeverCompletes(t: bytes, r: bytes)
    requires t != [] && t[0] == PERCENT && !First(t).Piece? && !BeginsEscape(t)
    ensures !First(t + r).Piece?
  {
    var u := t + r;
    assert forall i :: 0 <= i < |t| ==> u[i] == t[i];
  }

  /** An escape that cannot be decoded yet is unfinished exactly if it is the beginning of
      one that can, but for %u with a digit and then a byte that is none. */
  lemma UnfinishedExactly(t: bytes)
    requires t != [] && t[0] == PERCENT && !First(t).Piece?
    ensures (exists r :: First(t + r).Piece?) <==> BeginsEscape(t)
    ensures First(t) == Stop(Incomplete) <==> BeginsEscape(t) || WaitsInVain(t)
    ensures First(t) == Stop(BadSeq) <==> !BeginsEscape(t) && !WaitsInVain(t)
  {
    if BeginsEscape(t) {
      var r := Completes(t);
    } else {
      forall r
        ensures !First(t + r).Piece?
      {
        NeverCompletes(t, r);
      }
    }
  }

  // ------------------------------------------------------------ the encoder

  const UPPERS := "ABCDEFGHIJKLMNOPQRSTUVWXYZ"
  const LOWERS := "abcdefghijklmnopqrstuvwxyz"
  const DIGITS := "0123456789"
  const MARKS := "-._~"

  predicate Among(c: byte, s: string) { exists i :: 0 <= i < |s| && s[i] as int == c }

  lemma UppersAre(c: byte)
    ensures IsUpper(c) <==> Among(c, UPPERS)
  {
    if IsUpper(c) { assert UPPERS[c - 65] as int == c; }
  }

  lemma LowersAre(c: byte)
    ensures IsLower(c) <==> Among(c, LOWERS)
  {
    if IsLower(c) { assert LOWERS[c - 97] as int == c; }
  }

  lemma DigitsAndMarksAre(c: byte)
    ensures IsDigit(c) <==> Among(c, DIGITS)
    ensures c == DASH || c == 46 || c == 95 || c == 126 <==> Among(c, MARKS)
  {
    if IsDigit(c) { assert DIGITS[c - 48] as int == c; }
    assert MARKS[0] == '-' && MARKS[1] == '.' && MARKS[2] == '_' && MARKS[3] == '~';
  }

  predicate Unreserved(c: byte) { Among(c, UPPERS) || Among(c, LOWERS) || Among(c, DIGITS) || Among(c, MARKS) }

  /** What the encoder leaves as it is: letters, digits and -._~, and nothing else; a space
      becomes a plus sign, and any other byte an escape with upper-case digits. */
  lemma EncodesAs(c: byte)
    ensures EncodeOne(c) ==
            if Unreserved(c) then [c] else if c == SPACE then [PLUS] else SymText(Hex(c, true, true))
  {
    UppersAre(c);
    LowersAre(c);
    DigitsAndMarksAre(c);
  }
}
