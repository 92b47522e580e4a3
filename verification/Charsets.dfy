/** Charset recognition and the cp1252 conversion (library/util.c). */
module Charsets {
  import opened Bytes
  import opened Brigades

  // ------------------------------------------------------------ recognition

  /** 10xxxxxx */
  predicate IsTrail(c: byte) { 0x80 <= c < 0xC0 }

  /** A control character of the upper half in latin1. */
  predicate IsHighCntrl(c: byte) { 0x80 <= c < 0xA0 }

  /** How many bytes follow the first byte of a sequence. */
  function Trailing(c: byte): nat {
    if c < 0xC0 then 0 else if c < 0xE0 then 1 else if c < 0xF0 then 2 else if c < 0xF8 then 3
    else if c < 0xFC then 4 else if c < 0xFE then 5 else 0
  }

  /** The minimality mask, as the least second byte it lets through: among the bytes
      10xxxxxx the mask 0x20 meets those from 0xA0 on, 0x30 those from 0x90 on, 0x38
      those from 0x88 on and 0x3C those from 0x84 on. */
  function Least(c: byte): byte {
    if c == 0xE0 then 0xA0 else if c == 0xF0 then 0x90 else if c == 0xF8 then 0x88
    else if c == 0xFC then 0x84 else 0
  }

  lemma LeastIsTheMask(c: bv8)
    requires c & 0xC0 == 0x80
    ensures (c & 0x20 != 0) == (c >= 0xA0) && (c & 0x30 != 0) == (c >= 0x90)
    ensures (c & 0x38 != 0) == (c >= 0x88) && (c & 0x3C != 0) == (c >= 0x84)
  {
  }

  /** What the loop of apreq_charset_divine answers for the rest s of its input. */
  function Scan(s: bytes, rv: Charset, trail: nat, saw: bool, least: byte): Charset
    decreases |s|
  {
    if s == [] then
      if trail > 0 then (if saw then Cp1252 else Latin1) else rv
    else
      var c, rest := s[0], s[1..];
      if trail > 0 then
        if IsTrail(c) && c >= least then Scan(rest, rv, trail - 1, saw || IsHighCntrl(c), 0)
        else if saw then Cp1252
        else Scan(rest, Latin1, 0, saw, least)
      else if c < 0x80 then Scan(rest, rv, 0, saw, least)
      else if c < 0xA0 then Cp1252
      else if c < 0xC0 then (if saw then Cp1252 else Scan(rest, Latin1, 0, saw, least))
      else if rv == Latin1 then Scan(rest, rv, 0, saw, least)
      else if c == 0xC0 || c == 0xC1 then (if saw then Cp1252 else Scan(rest, Latin1, 0, saw, least))
      else Scan(rest, Utf8, Trailing(c), saw, Least(c))
  }

  function Divine(s: bytes): Charset { Scan(s, Ascii, 0, false, 0) }

  /** apreq_charset_divine */
  method CharsetDivine(s: bytes) returns (rv: Charset)
    ensures rv == Divine(s)
  {
    var trail, saw, least, i: nat := 0, false, 0, 0;
    rv := Ascii;
    assert s[0..] == s;
    while i < |s|
      invariant i <= |s| && Divine(s) == Scan(s[i..], rv, trail, saw, least)
    {
      var c := s[i];
      assert s[i..][1..] == s[i + 1..];
      if trail > 0 {
        if IsTrail(c) && c >= least {
          least, trail := 0, trail - 1;
          if IsHighCntrl(c) { saw := true; }
        } else {
          trail := 0;
          if saw { return Cp1252; }
          rv := Latin1;
        }
      } else if c < 0x80 {
      } else if c < 0xA0 {
        return Cp1252;
      } else if c < 0xC0 {
        if saw { return Cp1252; }
        rv := Latin1;
      } else if rv == Latin1 {
      } else if c == 0xC0 || c == 0xC1 {
        if saw { return Cp1252; }
        rv := Latin1;
      } else {
        rv, trail, least := Utf8, Trailing(c), Least(c);
      }
      i := i + 1;
    }
    rv := if trail > 0 then (if saw then Cp1252 else Latin1) else rv;
  }

  // ------------------------------------------------------------ the grammar

  predicate AllAscii(s: bytes) { forall i :: 0 <= i < |s| ==> s[i] < 0x80 }

  /** The bytes behind a first byte: n trailing ones, the first at least least. */
  predicate Trails(s: bytes, n: nat, least: byte) {
    && n <= |s| && (forall i :: 0 <= i < n ==> IsTrail(s[i]))
    && (n > 0 ==> s[0] >= least)
  }

  /** An ASCII byte, a minimal sequence of the bit-pattern table, or a lone FE or FF. */
  predicate IsSequence(s: bytes) {
    && s != [] && !IsTrail(s[0]) && s[0] != 0xC0 && s[0] != 0xC1
    && |s| == 1 + Trailing(s[0]) && Trails(s[1..], Trailing(s[0]), Least(s[0]))
  }

  /** A string made of such sequences. */
  predicate IsText(s: bytes)
    decreases |s|
  {
    s == [] ||
    (var n := 1 + Trailing(s[0]);
     n <= |s| && IsSequence(s[..n]) && IsText(s[n..]))
  }

  lemma {:induction false} TrailsTail(s: bytes, n: nat, least: byte)
    requires n > 0 && s != []
    ensures Trails(s, n, least) <==> IsTrail(s[0]) && s[0] >= least && Trails(s[1..], n - 1, 0)
  {
    if IsTrail(s[0]) && Trails(s[1..], n - 1, 0) {
      forall i | 0 <= i < n
        ensures IsTrail(s[i])
      {
        if i > 0 { assert s[i] == s[1..][i - 1]; }
      }
    }
    if Trails(s, n, least) {
      forall i | 0 <= i < n - 1
        ensures IsTrail(s[1..][i])
      {
        assert s[1..][i] == s[i + 1];
      }
    }
  }

  lemma TrailsPrefix(s: bytes, n: nat, least: byte)
    requires n <= |s|
    ensures Trails(s[..n], n, least) <==> Trails(s, n, least)
  {
    forall i | 0 <= i < n
      ensures s[..n][i] == s[i]
    {
    }
  }

  lemma TextStarts(s: bytes)
    requires s != []
    ensures
      var n := Trailing(s[0]);
      IsText(s) <==> !IsTrail(s[0]) && s[0] != 0xC0 && s[0] != 0xC1 && Trails(s[1..], n, Least(s[0])) && IsText(s[1..][n..])
  {
    var n := Trailing(s[0]);
    if n < |s| {
      var head, rest := s[..1 + n], s[1..];
      assert head[1..] == rest[..n];
      assert s[1 + n..] == rest[n..];
      TrailsPrefix(rest, n, Least(s[0]));
      assert head[0] == s[0];
      assert IsText(s) <==> IsSequence(head) && IsText(rest[n..]);
    }
  }

  lemma {:induction false} Latin1Stays(s: bytes, saw: bool, least: byte)
    ensures Scan(s, Latin1, 0, saw, least) in {Latin1, Cp1252}
    decreases |s|
  {
    if s != [] { Latin1Stays(s[1..], saw, least); }
  }

  /** From any state of the loop: the answer is UTF8 or ASCII exactly when the open
      sequence is completed and text follows. */
  lemma {:induction false} ScanRecognises(s: bytes, rv: Charset, trail: nat, saw: bool, least: byte)
    requires rv == Ascii || rv == Utf8
    requires trail > 0 ==> rv == Utf8
    ensures Scan(s, rv, trail, saw, least) in {Ascii, Utf8} <==> Trails(s, trail, least) && IsText(s[trail..])
    ensures Scan(s, rv, trail, saw, least) == Ascii <==> rv == Ascii && AllAscii(s)
    decreases |s|
  {
    if s == [] {
    } else if trail > 0 {
      TrailsTail(s, trail, least);
      assert trail <= |s| ==> s[1..][trail - 1..] == s[trail..];
      if IsTrail(s[0]) && s[0] >= least {
        ScanRecognises(s[1..], rv, trail - 1, saw || IsHighCntrl(s[0]), 0);
      } else {
        Latin1Stays(s[1..], saw, least);
      }
    } else {
      LeadRecognises(s, rv, saw, least);
    }
  }

  lemma {:induction false} LeadRecognises(s: bytes, rv: Charset, saw: bool, least: byte)
    requires s != [] && (rv == Ascii || rv == Utf8)
    ensures Scan(s, rv, 0, saw, least) in {Ascii, Utf8} <==> IsText(s)
    ensures Scan(s, rv, 0, saw, least) == Ascii <==> rv == Ascii && AllAscii(s)
    decreases |s|, 0
  {
    var c, rest := s[0], s[1..];
    TextStarts(s);
    assert rest[0..] == rest;
    assert AllAscii(s) ==> AllAscii(rest);
    if c < 0x80 {
      ScanRecognises(rest, rv, 0, saw, least);
      assert s == [c] + rest;
    } else if c < 0xC2 {
      Latin1Stays(rest, saw, least);
    } else {
      ScanRecognises(rest, Utf8, Trailing(c), saw, Least(c));
    }
  }

  /** Recognition is exact. */
  lemma DivineIsExact(s: bytes)
    ensures Divine(s) == Ascii <==> AllAscii(s)
    ensures Divine(s) == Utf8 <==> IsText(s) && !AllAscii(s)
  {
    ScanRecognises(s, Ascii, 0, false, 0);
    assert s[0..] == s;
  }

  /** One character as section 4 of RFC 3629 allows it. */
  predicate IsRfc3629Char(s: bytes) {
    && 0 < |s| <= 4 && (forall i :: 1 <= i < |s| ==> IsTrail(s[i]))
    && match |s|
       case 1 => s[0] < 0x80
       case 2 => 0xC2 <= s[0] <= 0xDF
       case 3 => 0xE0 <= s[0] <= 0xEF && (s[0] == 0xE0 ==> s[1] >= 0xA0) && (s[0] == 0xED ==> s[1] <= 0x9F)
       case _ => 0xF0 <= s[0] <= 0xF4 && (s[0] == 0xF0 ==> s[1] >= 0x90) && (s[0] == 0xF4 ==> s[1] <= 0x8F)
  }

  lemma Rfc3629CharIsSequence(c: bytes)
    requires IsRfc3629Char(c)
    ensures IsSequence(c)
  {
  }

  /** All text of RFC 3629 is recognised. */
  lemma {:induction false} Rfc3629IsText(chars: seq<bytes>)
    requires forall i :: 0 <= i < |chars| ==> IsRfc3629Char(chars[i])
    ensures IsText(Flatten(chars))
    ensures !AllAscii(Flatten(chars)) ==> Divine(Flatten(chars)) == Utf8
    decreases |chars|
  {
    if chars != [] {
      Rfc3629IsText(chars[1..]);
      Rfc3629CharIsSequence(chars[0]);
      TextCons(chars[0], Flatten(chars[1..]));
    }
    DivineIsExact(Flatten(chars));
  }

  lemma TextCons(c: bytes, s: bytes)
    requires IsSequence(c) && IsText(s)
    ensures IsText(c + s)
  {
    var t := c + s;
    var n := 1 + Trailing(t[0]);
    assert t[..n] == c && t[n..] == s;
  }

  // ------------------------------------------------------------ latin1 or cp1252

  /** All control characters of the upper half stand at position k. */
  ghost predicate ControlsAt(s: bytes, k: int) {
    forall i :: 0 <= i < |s| && IsHighCntrl(s[i]) ==> i == k
  }

  /** Text, then a first byte whose minimality mask the control character at k fails. */
  ghost predicate OverlongAt(s: bytes, k: nat) {
    1 <= k < |s| && IsText(s[..k - 1]) && IsHighCntrl(s[k]) && s[k] < Least(s[k - 1])
  }

  /** The only control character is the second byte of an overlong sequence behind text. */
  ghost predicate HidesControl(s: bytes) {
    exists k: nat :: OverlongAt(s, k) && ControlsAt(s, k)
  }

  /** The charset the comment in front of apreq_charset_divine documents. */
  ghost function Documented(s: bytes): Charset {
    if AllAscii(s) then Ascii
    else if IsText(s) then Utf8
    else if ControlsAt(s, -1) then Latin1
    else Cp1252
  }

  lemma ControlsSplit(a: bytes, b: bytes, k: int)
    ensures ControlsAt(a + b, k) <==> ControlsAt(a, k) && ControlsAt(b, k - |a|)
  {
    var s := a + b;
    if ControlsAt(s, k) {
      forall i | 0 <= i < |a| && IsHighCntrl(a[i])
        ensures i == k
      {
        assert s[i] == a[i];
      }
      forall i | 0 <= i < |b| && IsHighCntrl(b[i])
        ensures i == k - |a|
      {
        assert s[|a| + i] == b[i];
      }
    }
  }

  lemma ControlsCons(s: bytes, k: int)
    requires s != []
    ensures ControlsAt(s, k) <==> (IsHighCntrl(s[0]) ==> k == 0) && ControlsAt(s[1..], k - 1)
  {
    ControlsSplit([s[0]], s[1..], k);
    assert s == [s[0]] + s[1..];
  }

  lemma {:induction false} Latin1Scan(s: bytes, least: byte)
    ensures Scan(s, Latin1, 0, false, least) == Latin1 <==> ControlsAt(s, -1)
    decreases |s|
  {
    if s != [] {
      Latin1Scan(s[1..], least);
      ControlsCons(s, -1);
      NoControlMoves(s[1..], -2);
    }
  }

  /** No position at all is as good as another. */
  lemma NoControlMoves(s: bytes, k: int)
    requires k < 0
    ensures ControlsAt(s, k) <==> ControlsAt(s, -1)
  {
  }

  /** A broken sequence: the byte that breaks it is taken for latin1 unseen. */
  lemma {:induction false} BrokenScan(s: bytes, trail: nat, saw: bool, least: byte)
    requires trail > 0 && !Trails(s, trail, least)
    ensures Scan(s, Utf8, trail, saw, least) == Latin1 <==>
            !saw && ControlsAt(s, if s != [] && s[0] < least then 0 else -1)
    decreases trail
  {
    if s != [] {
      TrailsTail(s, trail, least);
      var k := if s[0] < least then 0 else -1;
      ControlsCons(s, k);
      if IsTrail(s[0]) && s[0] >= least {
        BrokenScan(s[1..], trail - 1, saw || IsHighCntrl(s[0]), 0);
        NoControlMoves(s[1..], -2);
      } else {
        Latin1Scan(s[1..], least);
        NoControlMoves(s[1..], k - 1);
      }
    }
  }

  /** A completed sequence: its control characters are remembered. */
  lemma {:induction false} WholeScan(s: bytes, trail: nat, saw: bool, least: byte)
    requires trail > 0 && Trails(s, trail, least)
    ensures Scan(s, Utf8, trail, saw, least)
         == Scan(s[trail..], Utf8, 0, saw || !ControlsAt(s[..trail], -1), 0)
    decreases trail
  {
    TrailsTail(s, trail, least);
    ControlsCons(s[..trail], -1);
    assert s[..trail][1..] == s[1..][..trail - 1];
    assert s[1..][trail - 1..] == s[trail..];
    NoControlMoves(s[1..][..trail - 1], -2);
    if trail > 1 {
      WholeScan(s[1..], trail - 1, saw || IsHighCntrl(s[0]), 0);
    }
  }

  ghost predicate Quiet(s: bytes) { ControlsAt(s, -1) || HidesControl(s) }

  /** The first sequence is complete: only the rest can hide a control character. */
  lemma QuietBehind(head: bytes, rest: bytes)
    requires IsSequence(head)
    ensures Quiet(head + rest) <==> ControlsAt(head, -1) && Quiet(rest)
  {
    var s, n := head + rest, |head|;
    ControlsSplit(head, rest, -1);
    NoControlMoves(rest, -1 - n);
    if HidesControl(s) {
      HiddenBehind(head, rest);
    }
    if ControlsAt(head, -1) && HidesControl(rest) {
      var k: nat :| OverlongAt(rest, k) && ControlsAt(rest, k);
      TextCons(head, rest[..k - 1]);
      assert s[..k + n - 1] == head + rest[..k - 1];
      ControlsSplit(head, rest, k + n);
      assert OverlongAt(s, k + n) && ControlsAt(s, k + n);
    }
  }

  lemma HiddenBehind(head: bytes, rest: bytes)
    requires IsSequence(head) && HidesControl(head + rest)
    ensures ControlsAt(head, -1) && HidesControl(rest)
  {
    var k: nat :| OverlongAt(head + rest, k) && ControlsAt(head + rest, k);
    OverlongBehind(head, rest, k);
    ControlsSplit(head, rest, k);
  }

  lemma OverlongBehind(head: bytes, rest: bytes, k: nat)
    requires IsSequence(head) && OverlongAt(head + rest, k)
    ensures k > |head| && OverlongAt(rest, k - |head|)
  {
    var s, n := head + rest, |head|;
    NotAtOne(head, rest);
    TextPrefixCut(head, rest, k - 1);
    assert s[..k - 1][n..] == rest[..k - 1 - n];
    assert s[k] == rest[k - n] && s[k - 1] == rest[k - 1 - n];
  }

  /** A sequence is not overlong. */
  lemma NotAtOne(head: bytes, rest: bytes)
    requires IsSequence(head)
    ensures !OverlongAt(head + rest, 1)
  {
    assert (head + rest)[0] == head[0];
    if |head| > 1 { assert (head + rest)[1] == head[1] == head[1..][0]; }
  }

  /** A prefix that is text holds the first sequence or nothing of it. */
  lemma TextPrefixCut(head: bytes, rest: bytes, m: nat)
    requires IsSequence(head) && m <= |head + rest| && IsText((head + rest)[..m])
    ensures m == 0 || (m >= |head| && IsText((head + rest)[..m][|head|..]))
  {
    var u := (head + rest)[..m];
    if m > 0 { assert u[0] == head[0]; }
  }
  lemma TextPrefixHead(s: bytes, m: nat)
    requires s != [] && m <= |s| && IsText(s[..m])
    ensures m == 0 || (1 + Trailing(s[0]) <= m && IsSequence(s[..1 + Trailing(s[0])]))
  {
    if m > 0 {
      var n := 1 + Trailing(s[0]);
      assert s[..m][0] == s[0];
      assert n <= m && s[..m][..n] == s[..n];
    }
  }

  /** The first sequence is broken: only its second byte can be hidden. */
  lemma QuietHead(s: bytes)
    requires s != [] && !(1 + Trailing(s[0]) <= |s| && IsSequence(s[..1 + Trailing(s[0])]))
    ensures
      var hidden := |s| > 1 && IsHighCntrl(s[1]) && s[1] < Least(s[0]);
      Quiet(s) <==> ControlsAt(s, if hidden then 1 else -1)
  {
    if HidesControl(s) {
      var k: nat :| OverlongAt(s, k) && ControlsAt(s, k);
      TextPrefixHead(s, k - 1);
    }
    if |s| > 1 && IsHighCntrl(s[1]) && s[1] < Least(s[0]) {
      assert s[..0] == [];
      assert OverlongAt(s, 1);
    }
  }

  /** Between two sequences: latin1 is the answer when no control character is seen. */
  lemma {:induction false} QuietScan(s: bytes, rv: Charset, saw: bool, least: byte)
    requires (rv == Ascii || rv == Utf8) && !IsText(s)
    ensures Scan(s, rv, 0, saw, least) == Latin1 <==> !saw && Quiet(s)
    decreases |s|
  {
    var c, n := s[0], Trailing(s[0]);
    var rest := s[1..];
    TextStarts(s);
    if n < |s| && IsSequence(s[..1 + n]) {
      var head, more := s[..1 + n], s[1 + n..];
      assert s == head + more && rest[n..] == more && head[1..] == rest[..n];
      QuietBehind(head, more);
      TrailsPrefix(rest, n, Least(c));
      ControlsCons(head, -1);
      NoControlMoves(rest[..n], -2);
      QuietWhole(s, rv, saw, least);
    } else {
      QuietHead(s);
      QuietBroken(s, rv, saw, least);
    }
  }

  lemma {:induction false} QuietWhole(s: bytes, rv: Charset, saw: bool, least: byte)
    requires (rv == Ascii || rv == Utf8) && s != [] && !IsText(s)
    requires
      var n := 1 + Trailing(s[0]);
      n <= |s| && IsSequence(s[..n]) && !IsText(s[n..])
    ensures
      var n := 1 + Trailing(s[0]);
      Scan(s, rv, 0, saw, least) == Latin1 <==> !saw && ControlsAt(s[..n], -1) && Quiet(s[n..])
    decreases |s|, 0
  {
    var n, rest := Trailing(s[0]), s[1..];
    assert rest[n..] == s[1 + n..] && s[..1 + n][1..] == rest[..n];
    TrailsPrefix(rest, n, Least(s[0]));
    ControlsCons(s[..1 + n], -1);
    NoControlMoves(rest[..n], -2);
    if n == 0 {
      QuietScan(rest, if s[0] < 0x80 then rv else Utf8, saw, if s[0] < 0x80 then least else 0);
    } else {
      WholeScan(rest, n, saw, Least(s[0]));
      QuietScan(rest[n..], Utf8, saw || !ControlsAt(rest[..n], -1), 0);
    }
  }

  lemma QuietBroken(s: bytes, rv: Charset, saw: bool, least: byte)
    requires (rv == Ascii || rv == Utf8) && s != []
    requires !(1 + Trailing(s[0]) <= |s| && IsSequence(s[..1 + Trailing(s[0])]))
    ensures
      var hidden := |s| > 1 && IsHighCntrl(s[1]) && s[1] < Least(s[0]);
      Scan(s, rv, 0, saw, least) == Latin1 <==> !saw && ControlsAt(s, if hidden then 1 else -1)
  {
    var c, n, rest := s[0], Trailing(s[0]), s[1..];
    ControlsCons(s, -1);
    ControlsCons(s, 1);
    NoControlMoves(rest, -2);
    if n < |s| {
      assert s[..1 + n][1..] == rest[..n];
      TrailsPrefix(rest, n, Least(c));
    }
    if c >= 0xC2 {
      BrokenScan(rest, n, saw, Least(c));
    } else {
      Latin1Scan(rest, least);
    }
  }

  lemma {:induction false} TextCut(s: bytes, m: nat)
    requires m <= |s| && IsText(s) && IsText(s[..m])
    ensures IsText(s[m..])
    decreases m
  {
    if m == 0 {
      assert s[0..] == s;
    } else {
      TextPrefixHead(s, m);
      var n := 1 + Trailing(s[0]);
      var k := m - n;
      DropOfTake(s, m, n, k);
      assert s[..m][0] == s[0];
      TextCut(s[n..], k);
      DropTwice(s, n, k, m);
    }
  }

  lemma TextHidesNothing(s: bytes)
    requires IsText(s)
    ensures !HidesControl(s)
  {
    forall k: nat | 1 <= k < |s| && IsText(s[..k - 1])
      ensures !OverlongAt(s, k)
    {
      TextCut(s, k - 1);
      TextStarts(s[k - 1..]);
      assert s[k - 1..][1..] == s[k..];
    }
  }

  /** The code answers as documented exactly when the only control character is not the
      second byte of an overlong sequence. */
  lemma DivineAsDocumented(s: bytes)
    ensures Divine(s) == Documented(s) <==> !HidesControl(s)
  {
    DivineIsExact(s);
    if IsText(s) { TextHidesNothing(s); }
    if !IsText(s) {
      QuietScan(s, Ascii, false, 0);
    }
  }

  /** For instance E0 80: the control character 80 is not noticed. */
  lemma HiddenControl()
    ensures Divine([0xE0, 0x80]) == Latin1 && Documented([0xE0, 0x80]) == Cp1252
  {
    var s := [0xE0, 0x80];
    assert s[1..] == [0x80] && [0x80][1..] == [];
    assert !IsText(s) by { TextStarts(s); }
    assert IsHighCntrl(s[1]);
  }

  // ------------------------------------------------------------ cp1252 to UTF-8

  /** cp1252_to_bmp */
  function ToBmp(c: byte): nat {
    match c
    case 0x80 => 0x20AC
    case 0x82 => 0x201A
    case 0x83 => 0x192
    case 0x84 => 0x201E
    case 0x85 => 0x2026
    case 0x86 => 0x2020
    case 0x87 => 0x2021
    case 0x88 => 0x2C6
    case 0x89 => 0x2030
    case 0x8A => 0x160
    case 0x8B => 0x2039
    case 0x8C => 0x152
    case 0x8E => 0x17D
    case 0x91 => 0x2018
    case 0x92 => 0x2019
    case 0x93 => 0x201C
    case 0x94 => 0x201D
    case 0x95 => 0x2022
    case 0x96 => 0x2013
    case 0x97 => 0x2014
    case 0x98 => 0x2DC
    case 0x99 => 0x2122
    case 0x9A => 0x161
    case 0x9B => 0x203A
    case 0x9C => 0x153
    case 0x9E => 0x17E
    case 0x9F => 0x178
    case _ => c
  }

  /** The code points that Windows code page 1252 has beyond latin1, in ascending order, and
      their bytes. */
  const CP1252: seq<(nat, byte)> := [
    (0x0152, 0x8C), (0x0153, 0x9C), (0x0160, 0x8A), (0x0161, 0x9A), (0x0178, 0x9F), (0x017D, 0x8E), (0x017E, 0x9E),
    (0x0192, 0x83), (0x02C6, 0x88), (0x02DC, 0x98), (0x2013, 0x96), (0x2014, 0x97), (0x2018, 0x91), (0x2019, 0x92),
    (0x201A, 0x82), (0x201C, 0x93), (0x201D, 0x94), (0x201E, 0x84), (0x2020, 0x86), (0x2021, 0x87), (0x2022, 0x95),
    (0x2026, 0x85), (0x2030, 0x89), (0x2039, 0x8B), (0x203A, 0x9B), (0x20AC, 0x80), (0x2122, 0x99)]

  /** A byte stands for its code point in the code page, and any other for itself. */
  lemma BmpIsTheCodePage(c: byte)
    ensures forall i :: 0 <= i < |CP1252| ==> ToBmp(CP1252[i].1) == CP1252[i].0
    ensures (forall i :: 0 <= i < |CP1252| ==> CP1252[i].1 != c) ==> ToBmp(c) == c
  {
    if forall i :: 0 <= i < |CP1252| ==> CP1252[i].1 != c {
      assert CP1252[0].1 == 0x8C && CP1252[1].1 == 0x9C && CP1252[2].1 == 0x8A && CP1252[3].1 == 0x9A;
      assert CP1252[4].1 == 0x9F && CP1252[5].1 == 0x8E && CP1252[6].1 == 0x9E && CP1252[7].1 == 0x83;
      assert CP1252[8].1 == 0x88 && CP1252[9].1 == 0x98 && CP1252[10].1 == 0x96 && CP1252[11].1 == 0x97;
      assert CP1252[12].1 == 0x91 && CP1252[13].1 == 0x92 && CP1252[14].1 == 0x82 && CP1252[15].1 == 0x93;
      assert CP1252[16].1 == 0x94 && CP1252[17].1 == 0x84 && CP1252[18].1 == 0x86 && CP1252[19].1 == 0x87;
      assert CP1252[20].1 == 0x95 && CP1252[21].1 == 0x85 && CP1252[22].1 == 0x89 && CP1252[23].1 == 0x8B;
      assert CP1252[24].1 == 0x9B && CP1252[25].1 == 0x80 && CP1252[26].1 == 0x99;
    }
  }

  /** The UTF-8 form of a 16-bit code point. */
  function Utf8Of(c: nat): (r: bytes)
    requires c < 0x10000
    ensures 1 <= |r| <= 3
  {
    if c < 0x80 then [c]
    else if c < 0x800 then [0xC0 + c / 64, 0x80 + c % 64]
    else [0xE0 + c / 4096, 0x80 + c / 64 % 64, 0x80 + c % 64]
  }

  function ToUtf8(s: bytes): bytes {
    if s == [] then [] else Utf8Of(ToBmp(s[0])) + ToUtf8(s[1..])
  }

  lemma {:induction false} ToUtf8Snoc(s: bytes, c: byte)
    ensures ToUtf8(s + [c]) == ToUtf8(s) + Utf8Of(ToBmp(c))
  {
    if s == [] {
      assert s + [c] == [c] && [c][1..] == [];
    } else {
      ToUtf8Snoc(s[1..], c);
      assert (s + [c])[1..] == s[1..] + [c];
    }
  }

  /** *d++ = ... for one code point */
  method PutUtf8(d: bytes, c: nat) returns (dest: bytes)
    requires c < 0x10000
    ensures dest == d + Utf8Of(c)
  {
    if c < 0x80 {
      dest := d + [c];
    } else if c < 0x800 {
      dest := d + [0xC0 + c / 64];
      dest := dest + [0x80 + c % 64];
    } else {
      dest := d + [0xE0 + c / 4096];
      dest := dest + [0x80 + c / 64 % 64];
      dest := dest + [0x80 + c % 64];
    }
  }

  /** apreq_cp1252_to_utf8 */
  method Cp1252ToUtf8(src: bytes) returns (dest: bytes)
    ensures dest == ToUtf8(src)
  {
    dest := [];
    var i := 0;
    while i < |src|
      invariant i <= |src| && dest == ToUtf8(src[..i])
    {
      ToUtf8Snoc(src[..i], src[i]);
      assert src[..i + 1] == src[..i] + [src[i]];
      dest := PutUtf8(dest, ToBmp(src[i]));
      i := i + 1;
    }
    assert src[..i] == src;
  }

  lemma FormIsSequence(c: byte)
    ensures IsSequence(Utf8Of(ToBmp(c)))
    ensures AllAscii(Utf8Of(ToBmp(c))) <==> c < 0x80
  {
    var u := ToBmp(c);
    if 0x80 <= u < 0x800 {
      assert 2 <= u / 64 < 32;
    } else if u >= 0x800 {
      assert 0 <= u / 4096 < 16;
    }
  }

  /** The output is well-formed, at most three times as long, and ASCII only if the
      input is. */
  lemma {:induction false} ConversionIsText(s: bytes)
    ensures IsText(ToUtf8(s)) && |ToUtf8(s)| <= 3 * |s|
    ensures AllAscii(ToUtf8(s)) <==> AllAscii(s)
  {
    if s != [] {
      ConversionIsText(s[1..]);
      FormIsSequence(s[0]);
      var u, t := Utf8Of(ToBmp(s[0])), ToUtf8(s[1..]);
      TextCons(u, t);
      AsciiConcat(u, t);
      AsciiConcat([s[0]], s[1..]);
      assert s == [s[0]] + s[1..];
    }
  }

  lemma AsciiConcat(a: bytes, b: bytes)
    ensures AllAscii(a + b) <==> AllAscii(a) && AllAscii(b)
  {
    if AllAscii(a + b) {
      forall i | 0 <= i < |a|
        ensures a[i] < 0x80
      {
        assert a[i] == (a + b)[i];
      }
      forall i | 0 <= i < |b|
        ensures b[i] < 0x80
      {
        assert b[i] == (a + b)[|a| + i];
      }
    }
  }

  lemma ConversionIsRecognised(s: bytes)
    ensures Divine(ToUtf8(s)) == if AllAscii(s) then Ascii else Utf8
  {
    ConversionIsText(s);
    DivineIsExact(ToUtf8(s));
  }

  lemma BmpInjective(a: byte, b: byte)
    requires ToBmp(a) == ToBmp(b)
    ensures a == b
  {
  }

  /** The code point a form stands for. */
  function Value(s: bytes): int
    requires 1 <= |s| <= 3
  {
    var a: int := s[0];
    if |s| == 1 then a
    else
      var b: int := s[1];
      if |s| == 2 then (a - 0xC0) * 64 + (b - 0x80)
      else
        var c: int := s[2];
        (a - 0xE0) * 4096 + (b - 0x80) * 64 + (c - 0x80)
  }

  lemma ValueOfForm(c: nat)
    requires c < 0x10000
    ensures Value(Utf8Of(c)) == c
  {
  }

  lemma FormLength(c: byte)
    ensures |Utf8Of(ToBmp(c))| == 1 + Trailing(Utf8Of(ToBmp(c))[0])
  {
    FormIsSequence(c);
  }

  /** No two strings have the same conversion. */
  lemma {:induction false} ConversionIsInjective(a: bytes, b: bytes)
    requires ToUtf8(a) == ToUtf8(b)
    ensures a == b
    decreases |a|
  {
    if a != [] && b != [] {
      var u, v := Utf8Of(ToBmp(a[0])), Utf8Of(ToBmp(b[0]));
      FormLength(a[0]);
      FormLength(b[0]);
      assert u[0] == ToUtf8(a)[0] && v[0] == ToUtf8(b)[0];
      assert u == ToUtf8(a)[..|u|] && v == ToUtf8(b)[..|v|];
      assert ToUtf8(a[1..]) == ToUtf8(a)[|u|..] && ToUtf8(b[1..]) == ToUtf8(b)[|v|..];
      ValueOfForm(ToBmp(a[0]));
      ValueOfForm(ToBmp(b[0]));
      BmpInjective(a[0], b[0]);
      ConversionIsInjective(a[1..], b[1..]);
      assert a == [a[0]] + a[1..] && b == [b[0]] + b[1..];
    }
  }
}
