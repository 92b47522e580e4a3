/** Percent-encoding and decoding (library/util.c): one string, a vector of pieces with
    escapes that straddle them, and the encoder. */
module UrlCodec {
  import opened Bytes
  import Charsets

  // ------------------------------------------------------------ what decoding means

  /** One character or escape: what it decodes to and how long it is, or why it is none. */
  datatype Unit = Piece(out: bytes, len: nat) | Stop(st: Status)

  /** Status, decoded bytes, and how much of the input they stand for. */
  datatype Decoded = Decoded(st: Status, out: bytes, used: nat)

  function HexValue(c: byte): (v: nat)
    requires IsHexDigit(c)
    ensures v < 16
  {
    if c >= 97 then c - 87 else if c >= 65 then c - 55 else c - 48
  }

  function Hex2(a: byte, b: byte): byte
    requires IsHexDigit(a) && IsHexDigit(b)
  {
    HexValue(a) * 16 + HexValue(b)
  }

  predicate HexAt(s: bytes, i: nat) { i < |s| && IsHexDigit(s[i]) }

  predicate IsU(c: byte) { c == 85 || c == 117 }

  function HexPair(s: bytes): byte
    requires HexAt(s, 1) && HexAt(s, 2)
  {
    Hex2(s[1], s[2])
  }

  predicate IsWide(s: bytes) {
    |s| > 5 && IsU(s[1]) && HexAt(s, 2) && HexAt(s, 3) && HexAt(s, 4) && HexAt(s, 5)
  }

  function HexQuad(s: bytes): (c: nat)
    requires IsWide(s)
    ensures c < 0x10000
  {
    Hex2(s[2], s[3]) * 256 + Hex2(s[4], s[5])
  }

  /** The escape cannot be completed any more. */
  predicate IsBroken(s: bytes) {
    |s| > 5 || (|s| > 2 && !IsHexDigit(s[2])) || (|s| > 1 && !IsHexDigit(s[1]) && !IsU(s[1]))
  }

  function Escape(s: bytes): (u: Unit)
    ensures u.Piece? ==> |u.out| <= u.len <= |s| && 0 < u.len
  {
    if HexAt(s, 1) && HexAt(s, 2) then Piece([HexPair(s)], 3)
    else if IsWide(s) then Piece(Charsets.Utf8Of(HexQuad(s)), 6)
    else if IsBroken(s) then Stop(BadSeq)
    else Stop(Incomplete)
  }

  /** The first character or escape of s. */
  function First(s: bytes): (u: Unit)
    requires s != []
    ensures u.Piece? ==> |u.out| <= u.len <= |s| && 0 < u.len
  {
    if s[0] == PLUS then Piece([SPACE], 1)
    else if s[0] == PERCENT then Escape(s)
    else if 0 < s[0] < 128 then Piece([s[0]], 1)
    else Stop(BadChar)
  }

  function Prepend(out: bytes, used: nat, r: Decoded): Decoded {
    Decoded(r.st, out + r.out, used + r.used)
  }

  function Decode(s: bytes): (r: Decoded)
    ensures r.used <= |s| && |r.out| <= r.used
    ensures r.st == Success ==> r.used == |s|
    ensures r.st in {Success, Incomplete, BadSeq, BadChar}
    decreases |s|
  {
    if s == [] then Decoded(Success, [], 0)
    else
      match First(s)
      case Stop(st) => Decoded(st, [], 0)
      case Piece(out, len) => Prepend(out, len, Decode(s[len..]))
  }

  // ------------------------------------------------------------ decoding in pieces

  lemma PrependTwice(a: bytes, i: nat, b: bytes, j: nat, r: Decoded)
    ensures Prepend(a, i, Prepend(b, j, r)) == Prepend(a + b, i + j, r)
  {
    assert a + (b + r.out) == (a + b) + r.out;
  }

  /** What has been decided stays decided when more input arrives. */
  lemma FirstExtends(s: bytes, t: bytes)
    requires s != []
    ensures First(s) != Stop(Incomplete) ==> First(s + t) == First(s)
  {
    var u := s + t;
    assert forall i :: 0 <= i < |s| ==> u[i] == s[i];
  }

  /** What is left of a piece goes in front of the next. */
  ghost predicate Continues(a: bytes, b: bytes) { ContinuesFrom(a, b, Decode(a)) }

  ghost predicate ContinuesFrom(a: bytes, b: bytes, r: Decoded)
    requires r.used <= |a|
  {
    Decode(a + b) == if r.st == Success || r.st == Incomplete then Prepend(r.out, r.used, Decode(a[r.used..] + b)) else r
  }

  lemma DecodeUnfolds(t: bytes, u: Unit)
    requires t != [] && First(t) == u && u.Piece?
    ensures Decode(t) == Prepend(u.out, u.len, Decode(t[u.len..]))
  {
  }

  lemma ContinuesStep(a: bytes, b: bytes, u: Unit)
    requires a != [] && u.Piece? && First(a) == u && First(a + b) == u && Continues(a[u.len..], b)
    ensures Continues(a, b)
  {
    var t := a[u.len..];
    var q := Decode(t);
    TailOfConcat(a, b, u.len);
    DecodeUnfolds(a, u);
    DecodeUnfolds(a + b, u);
    ContinuesOn(a, b, u, t, q, Prepend(u.out, u.len, q));
  }

  lemma ContinuesOn(a: bytes, b: bytes, u: Unit, t: bytes, q: Decoded, r: Decoded)
    requires u.Piece? && u.len <= |a| && t == a[u.len..] && q.used <= |t| && r == Prepend(u.out, u.len, q)
    requires Decode(a + b) == Prepend(u.out, u.len, Decode(t + b)) && ContinuesFrom(t, b, q)
    ensures ContinuesFrom(a, b, r)
  {
    DropTwice(a, u.len, q.used, r.used);
    PrependTwice(u.out, u.len, q.out, q.used, Decode(a[r.used..] + b));
  }

  /** Decoding a and then, with what is left of it in front, b. */
  lemma {:induction false} DecodeContinues(a: bytes, b: bytes)
    ensures Continues(a, b)
    decreases |a|
  {
    if a == [] {
      assert a + b == b && a[0..] + b == b;
      assert [] + Decode(b).out == Decode(b).out;
    } else {
      FirstExtends(a, b);
      match First(a)
      case Stop(st) =>
        assert a[0..] == a;
        assert [] + Decode(a + b).out == Decode(a + b).out;
      case Piece(out, len) =>
        DecodeContinues(a[len..], b);
        ContinuesStep(a, b, First(a));
    }
  }

  // ------------------------------------------------------------ why decoding stops

  /** A % that more input could still complete. */
  predicate Opens(t: bytes) {
    t != [] && t[0] == PERCENT && !(HexAt(t, 1) && HexAt(t, 2)) && !IsWide(t) && !IsBroken(t)
  }

  /** A % that begins no escape. */
  predicate Breaks(t: bytes) {
    t != [] && t[0] == PERCENT && !(HexAt(t, 1) && HexAt(t, 2)) && !IsWide(t) && IsBroken(t)
  }

  /** A NUL, or a byte beyond ASCII. */
  predicate IsForeign(t: bytes) { t != [] && (t[0] == 0 || t[0] >= 128) }

  predicate StopsWith(t: bytes, st: Status) {
    match st
    case Incomplete => Opens(t)
    case BadSeq => Breaks(t)
    case BadChar => IsForeign(t)
    case _ => false
  }

  /** All in front of k can be decoded, and what stands at k cannot, for this reason. */
  predicate StopsAt(s: bytes, k: nat, st: Status) {
    k < |s| && Decode(s[..k]).st == Success && StopsWith(s[k..], st)
  }

  ghost predicate Undecodable(s: bytes, st: Status) { exists k: nat :: StopsAt(s, k, st) }

  lemma FirstStops(t: bytes, st: Status)
    requires t != [] && st != Success
    ensures First(t) == Stop(st) <==> StopsWith(t, st)
  {
  }

  /** Where decoding stops is where it got to. */
  lemma {:induction false} DecodeStopsAt(s: bytes)
    requires Decode(s).st != Success
    ensures StopsAt(s, Decode(s).used, Decode(s).st)
    decreases |s|
  {
    match First(s)
    case Stop(st) => StopsAtOnce(s, st);
    case Piece(out, len) =>
      DecodeUnfolds(s, First(s));
      DecodeStopsAt(s[len..]);
      StopBehind(s, len, Decode(s[len..]).used, Decode(s).st);
  }

  lemma StopBehind(s: bytes, len: nat, k: nat, st: Status)
    requires s != [] && First(s).Piece? && First(s).len == len && StopsAt(s[len..], k, st)
    ensures StopsAt(s, len + k, st)
  {
    PieceInFront(s, len, k);
  }

  lemma StopsAtOnce(s: bytes, st: Status)
    requires s != [] && First(s) == Stop(st) && st != Success
    ensures StopsAt(s, 0, st)
  {
    assert s[..0] == [] && s[0..] == s;
    FirstStops(s, st);
  }

  lemma PieceInFront(s: bytes, len: nat, k: nat)
    requires s != [] && First(s).Piece? && First(s).len == len && len + k <= |s|
    ensures s[len..][k..] == s[len + k..]
    ensures Decode(s[len..][..k]).st == Success ==> Decode(s[..len + k]).st == Success
  {
    var t := s[..len + k];
    assert t[len..] == s[len..][..k];
    FirstKnown(s, t);
  }

  /** A character or escape needs nothing behind it. */
  lemma FirstKnown(s: bytes, t: bytes)
    requires s != [] && First(s).Piece? && First(s).len <= |t| && t <= s
    ensures First(t) == First(s)
  {
    assert forall i :: 0 <= i < |t| ==> t[i] == s[i];
  }

  lemma StopIsFinal(s: bytes, k: nat, st: Status)
    requires StopsAt(s, k, st) && st != Success
    ensures Decode(s).st == st
  {
    var a, b := s[..k], s[k..];
    assert a + b == s;
    DecodeContinues(a, b);
    assert a[k..] + b == b;
    FirstStops(b, st);
  }

  /** Decoding ends with a status other than success exactly if there is a place where it
      has to, with all in front of it decodable. */
  lemma StopsExactly(s: bytes, st: Status)
    requires st != Success
    ensures Decode(s).st == st <==> Undecodable(s, st)
  {
    if Decode(s).st == st {
      DecodeStopsAt(s);
    }
    if Undecodable(s, st) {
      var k: nat :| StopsAt(s, k, st);
      StopIsFinal(s, k, st);
    }
  }

  // ------------------------------------------------------------ encoding

  function HexDigit(v: nat): byte
    requires v < 16
  {
    if v < 10 then 48 + v else 55 + v
  }

  predicate IsUnreserved(c: byte) { IsAlnum(c) || c == DASH || c == 46 || c == 95 || c == 126 }

  function EncodeOne(c: byte): (r: bytes)
    ensures 1 <= |r| <= 3
  {
    if IsUnreserved(c) then [c]
    else if c == SPACE then [PLUS]
    else [PERCENT, HexDigit(c / 16), HexDigit(c % 16)]
  }

  function Encode(s: bytes): bytes {
    if s == [] then [] else EncodeOne(s[0]) + Encode(s[1..])
  }

  lemma EncodeUnfolds(s: bytes)
    requires s != []
    ensures Encode(s) == EncodeOne(s[0]) + Encode(s[1..])
  {
  }

  lemma {:induction false} EncodeSnoc(s: bytes, c: byte)
    ensures Encode(s + [c]) == Encode(s) + EncodeOne(c)
  {
    if s == [] {
      assert s + [c] == [c] && [c][1..] == [];
    } else {
      var t := s[1..];
      EncodeSnoc(t, c);
      TailOfConcat(s, [c], 1);
      EncodeUnfolds(s);
      EncodeUnfolds(s + [c]);
      Assoc(EncodeOne(s[0]), Encode(t), EncodeOne(c));
    }
  }

  /** apreq_encode */
  method UrlEncode(src: bytes) returns (dest: bytes)
    ensures dest == Encode(src)
  {
    dest := [];
    var i := 0;
    while i < |src|
      invariant i <= |src| && dest == Encode(src[..i])
    {
      var c := src[i];
      EncodeSnoc(src[..i], c);
      assert src[..i + 1] == src[..i] + [c];
      if c < 0x80 && IsUnreserved(c) {
        dest := dest + [c];
      } else if c == SPACE {
        dest := dest + [PLUS];
      } else {
        dest := dest + [PERCENT] + [HexDigit(c / 16)] + [HexDigit(c % 16)];
      }
      i := i + 1;
    }
    assert src[..i] == src;
  }

  lemma EncodedFirst(c: byte, t: bytes)
    ensures First(EncodeOne(c) + t) == Piece([c], |EncodeOne(c)|)
  {
    var s := EncodeOne(c) + t;
    assert forall i :: 0 <= i < |EncodeOne(c)| ==> s[i] == EncodeOne(c)[i];
  }

  /** Every byte string survives encoding, at no more than three times its length. */
  lemma {:induction false} EncodeRoundTrip(s: bytes)
    ensures Decode(Encode(s)) == Decoded(Success, s, |Encode(s)|)
    ensures |s| <= |Encode(s)| <= 3 * |s|
  {
    if s != [] {
      EncodeRoundTrip(s[1..]);
      var e, t := EncodeOne(s[0]), Encode(s[1..]);
      EncodedFirst(s[0], t);
      assert (e + t)[|e|..] == t;
      assert [s[0]] + s[1..] == s;
    }
  }

  /** Nothing that separates names, values and words comes out of the encoder. */
  predicate NoSeparators(s: bytes) {
    forall i :: 0 <= i < |s| ==> s[i] != AMP && s[i] != SEMI && s[i] != EQUALS && s[i] != 0
  }

  lemma {:induction false} EncodedHasNoSeparators(s: bytes)
    ensures NoSeparators(Encode(s))
  {
    if s != [] { EncodedHasNoSeparators(s[1..]); }
  }

  // ------------------------------------------------------------ halfway through a string

  /** The states of the loop: k bytes of S read, out written, and goal what S decodes to. */
  ghost predicate Halfway(S: bytes, k: nat, out: bytes, goal: Decoded) {
    k <= |S| && |out| <= k && goal == Prepend(out, k, Decode(S[k..]))
  }

  lemma HalfwayMore(S: bytes, k: nat, out: bytes, goal: Decoded, u: Unit, k': nat, out': bytes)
    requires Halfway(S, k, out, goal) && k < |S| && First(S[k..]) == u && u.Piece?
    requires k' == k + u.len && out' == out + u.out
    ensures Halfway(S, k', out', goal)
  {
    var t := S[k..];
    DecodeUnfolds(t, u);
    DropTwice(S, k, u.len, k');
    PrependTwice(out, k, u.out, u.len, Decode(S[k'..]));
  }

  lemma HalfwayDone(S: bytes, k: nat, out: bytes, goal: Decoded)
    requires Halfway(S, k, out, goal)
    ensures k == |S| ==> goal == Decoded(Success, out, k)
    ensures k < |S| && First(S[k..]).Stop? ==> goal == Decoded(First(S[k..]).st, out, k)
  {
    assert out + [] == out;
  }

  // ------------------------------------------------------------ halfway through a vector

  /** out has been decoded; front, and rest behind it, are still to be. */
  ghost predicate Vectored(J: bytes, out: bytes, used: nat, front: bytes, rest: bytes) {
    |out| <= used && used + |front| + |rest| == |J| && Decode(J) == Prepend(out, used, Decode(front + rest))
  }

  lemma VectorMore(J: bytes, out: bytes, used: nat, front: bytes, rest: bytes)
    requires Vectored(J, out, used, front, rest)
    ensures
      var r := Decode(front);
      if r.st == Success || r.st == Incomplete then Vectored(J, out + r.out, used + r.used, front[r.used..], rest)
      else Decode(J) == Decoded(r.st, out + r.out, used + r.used)
  {
    DecodeContinues(front, rest);
    var r := Decode(front);
    PrependTwice(out, used, r.out, r.used, Decode(front[r.used..] + rest));
  }

  lemma UnfinishedRest(s: bytes)
    requires Decode(s).st == Incomplete
    ensures Decode(s[Decode(s).used..]) == Decoded(Incomplete, [], 0)
  {
    var r := Decode(s);
    DecodeContinues(s, []);
    assert s + [] == s && s[r.used..] + [] == s[r.used..];
  }

  /** The last piece has been read. */
  lemma VectorEnds(J: bytes, out: bytes, used: nat, front: bytes)
    requires Vectored(J, out, used, front, [])
    ensures front == [] ==> Decode(J) == Decoded(Success, out, used)
    ensures Decode(front) == Decoded(Incomplete, [], 0) ==> Decode(J) == Decoded(Incomplete, out, used)
  {
    assert front + [] == front && out + [] == out;
  }
}
