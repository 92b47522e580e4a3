/** Cookie headers with faults in them (library/cookie.c): where a pair that cannot be read
    ends, and where the parse goes on. */
module CookieFaults {
  import opened Bytes
  import opened CookieGrammar
  import opened CookieLaws

  // ------------------------------------------------------------ pairs without '='

  /** rest begins at the first separator or NUL, or is the end. */
  predicate PairTo(s: bytes, x: bytes, rest: bytes) {
    s == x + rest && EndsPair(Head(rest)) && forall i :: 0 <= i < |x| ==> !EndsPair(x[i])
  }

  predicate HasEquals(x: bytes) { exists i :: 0 <= i < |x| && x[i] == EQUALS }

  lemma PairToTail(s: bytes, x: bytes, rest: bytes)
    requires PairTo(s, x, rest) && x != []
    ensures s != [] && s[0] == x[0] && PairTo(s[1..], x[1..], rest)
    ensures HasEquals(x) <==> x[0] == EQUALS || HasEquals(x[1..])
  {
    assert s[1..] == x[1..] + rest;
    forall i | 0 <= i < |x[1..]|
      ensures x[1..][i] == x[i + 1]
    {
    }
    if HasEquals(x) && x[0] != EQUALS {
      var i :| 0 <= i < |x| && x[i] == EQUALS;
      assert x[1..][i - 1] == EQUALS;
    }
    if HasEquals(x[1..]) {
      var i :| 0 <= i < |x[1..]| && x[1..][i] == EQUALS;
      assert x[i + 1] == EQUALS;
    }
  }

  lemma {:induction false} NameScanned(s: bytes, x: bytes, rest: bytes, name: bytes, isSet: bool)
    requires PairTo(s, x, rest)
    ensures
      var n := ScanName(s, name, isSet);
      && (n.found <==> HasEquals(x)) && (!HasEquals(x) ==> n.rest == rest)
      && name <= n.name && (isSet ==> n.name == name)
    decreases |x|
  {
    if x == [] {
      assert s == rest;
    } else {
      PairToTail(s, x, rest);
      var c := s[0];
      if c != EQUALS {
        if isSet || IsLineBlank(c) {
          NameScanned(s[1..], x[1..], rest, name, true);
        } else {
          NameScanned(s[1..], x[1..], rest, name + [c], false);
        }
      }
    }
  }

  /** A pair is read up to the first separator or NUL, and fails exactly if there is no '='
      behind the leading blanks and equal signs; it leaves the rest of the header from there. */
  lemma NoPairIs(s: bytes, x: bytes, rest: bytes, unquote: bool)
    requires PairTo(SkipLead(s), x, rest)
    ensures
      var p := GetPair(s, unquote);
      && (p.st == NoToken || p.st == BadChar <==> !HasEquals(x))
      && (!HasEquals(x) ==> p.rest == rest && p.value == [] && (p.st == NoToken <==> x != []))
  {
    var k := SkipLead(s);
    LeadSkipped(s);
    NameScanned(k, x, rest, [], false);
    if x != [] && !HasEquals(x) { FirstIsKept(k, x, rest); }
  }

  lemma {:induction false} LeadSkipped(s: bytes)
    ensures SkipLead(s) == [] || !(IsSpace(SkipLead(s)[0]) || SkipLead(s)[0] == EQUALS)
  {
    if s != [] && (IsSpace(s[0]) || s[0] == EQUALS) { LeadSkipped(s[1..]); }
  }

  /** The first byte behind the leading blanks belongs to the name. */
  lemma FirstIsKept(k: bytes, x: bytes, rest: bytes)
    requires PairTo(k, x, rest) && x != [] && !HasEquals(x) && !IsSpace(x[0])
    ensures ScanName(k, [], false).name != []
  {
    PairToTail(k, x, rest);
    NameScanned(k[1..], x[1..], rest, [k[0]], false);
    assert [] + [k[0]] == [k[0]];
  }

  // ------------------------------------------------------------ quotes that are not closed

  /** A NUL ends the header. */
  predicate NoNul(x: bytes) { forall i :: 0 <= i < |x| ==> x[i] != 0 }

  /** Where the header goes on behind what has been read, with no NUL in between. */
  ghost predicate ReadTo(s: bytes, rest: bytes) { exists x :: s == x + rest && NoNul(x) }

  lemma ReadOn(s: bytes, mid: bytes, rest: bytes)
    requires ReadTo(s, mid) && ReadTo(mid, rest)
    ensures ReadTo(s, rest)
  {
    var x :| s == x + mid && NoNul(x);
    var y :| mid == y + rest && NoNul(y);
    Assoc(x, y, rest);
    assert s == (x + y) + rest;
  }

  lemma ReadOne(s: bytes, rest: bytes)
    requires s != [] && s[0] != 0 && ReadTo(s[1..], rest)
    ensures ReadTo(s, rest)
  {
    assert s == [s[0]] + s[1..];
    ReadOn(s, s[1..], rest);
  }

  lemma ReadNothing(s: bytes)
    ensures ReadTo(s, s)
  {
    assert s == [] + s;
  }

  lemma {:induction false} LeadRead(s: bytes)
    ensures ReadTo(s, SkipLead(s))
  {
    if s != [] && (IsSpace(s[0]) || s[0] == EQUALS) {
      LeadRead(s[1..]);
      ReadOne(s, SkipLead(s));
    } else {
      ReadNothing(s);
    }
  }

  lemma {:induction false} SpaceRead(s: bytes)
    ensures ReadTo(s, SkipSpace(s))
  {
    if s != [] && IsSpace(s[0]) {
      SpaceRead(s[1..]);
      ReadOne(s, SkipSpace(s));
    } else {
      ReadNothing(s);
    }
  }

  lemma {:induction false} NameRead(s: bytes, name: bytes, isSet: bool)
    ensures ReadTo(s, ScanName(s, name, isSet).rest)
    decreases |s|
  {
    var r := ScanName(s, name, isSet).rest;
    if EndsPair(Head(s)) {
      ReadNothing(s);
    } else if s[0] == EQUALS {
      ReadNothing(r);
      ReadOne(s, r);
    } else if isSet || IsLineBlank(s[0]) {
      NameRead(s[1..], name, true);
      ReadOne(s, r);
    } else {
      NameRead(s[1..], name + [s[0]], false);
      ReadOne(s, r);
    }
  }

  /** A quote that is not closed takes all up to a NUL or the end. */
  lemma {:induction false} QuoteRead(s: bytes)
    ensures ReadTo(s, ScanQuoted(s).rest)
    ensures !ScanQuoted(s).ok ==> Head(ScanQuoted(s).rest) == 0
    decreases |s|
  {
    var c, r := Head(s), ScanQuoted(s).rest;
    if c == 0 {
      ReadNothing(s);
    } else if c == QUOTE {
      ReadNothing(r);
      ReadOne(s, r);
    } else if c == BACKSLASH && Head(s[1..]) != 0 {
      QuoteRead(s[2..]);
      assert s[1..][1..] == s[2..];
      ReadOne(s[1..], r);
      ReadOne(s, r);
    } else {
      QuoteRead(s[1..]);
      ReadOne(s, r);
    }
  }

  /** A pair whose quote is not closed has read all up to a NUL or the end. */
  lemma UnclosedIs(s: bytes, unquote: bool)
    requires GetPair(s, unquote).st == BadSeq
    ensures
      var rest := GetPair(s, unquote).rest;
      ReadTo(s, rest) && Head(rest) == 0
  {
    var k := SkipLead(s);
    var n := ScanName(k, [], false);
    var v := SkipSpace(n.rest);
    var rest := GetPair(s, unquote).rest;
    LeadRead(s);
    NameRead(k, [], false);
    ReadOn(s, k, n.rest);
    SpaceRead(n.rest);
    ReadOn(s, n.rest, v);
    assert Head(v) == QUOTE by { if Head(v) != QUOTE { BareLies(v); } }
    QuoteRead(v[1..]);
    ReadOne(v, rest);
    ReadOn(s, v, rest);
  }

  // ------------------------------------------------------------ recovery

  /** Words without '=', separators and NULs, and not only blanks; they do not begin with $. */
  predicate IsJunk(x: bytes) {
    && (forall i :: 0 <= i < |x| ==> !EndsPair(x[i]) && x[i] != EQUALS)
    && SkipSpace(x) != [] && SkipSpace(x)[0] != DOLLAR
  }

  lemma {:induction false} SpaceInJunk(x: bytes, t: bytes)
    requires IsJunk(x)
    ensures IsJunk(SkipSpace(x)) && SkipSpace(x + t) == SkipSpace(x) + t && SkipSpace(SkipSpace(x)) == SkipSpace(x)
    decreases |x|
  {
    assert (x + t)[0] == x[0];
    if IsSpace(x[0]) {
      assert (x + t)[1..] == x[1..] + t;
      SpaceInJunk(x[1..], t);
    }
  }

  /** A junk word fails as a pair, and its rest is what follows it. */
  lemma JunkFails(x: bytes, t: bytes)
    requires IsJunk(x) && !IsSpace(x[0]) && EndsPair(Head(t))
    ensures GetPair(x + t, false).st == NoToken && GetPair(x + t, false).rest == t
  {
    var s := x + t;
    assert s[0] == x[0];
    assert SkipLead(s) == s;
    NoPairIs(s, x, t, false);
  }

  lemma JunkPairs(x: bytes, t: bytes, c: Option<Found>, version: nat, j: Jar)
    requires IsJunk(x) && !IsSpace(x[0]) && EndsPair(Head(t))
    ensures Pairs(x + t, c, version, j) == Resync(t, None, Add(j, c).(rv := NoToken))
  {
    var s := x + t;
    assert s[0] == x[0];
    assert SkipSemis(s) == s;
    JunkFails(x, t);
  }

  /** Junk in front of a separator is skipped: the header goes on behind it as one of its
      own, with NoToken as the status unless something later changes it. */
  lemma JunkIsSkipped(x: bytes, sep: byte, rest: bytes, j: Jar)
    requires IsJunk(x) && (sep == SEMI || sep == COMMA)
    ensures Header(x + ([sep] + rest), j) == Header(rest, j.(rv := NoToken))
    ensures Header(x + ([sep] + rest), Empty).found == Header(rest, Empty).found
  {
    var t := [sep] + rest;
    SpaceInJunk(x, t);
    var k := SkipSpace(x);
    JunkPairs(k, t, None, 0, j);
    JunkPairs(k, t, None, 0, Empty);
    assert t[1..] == rest;
    ResyncIsFresh(rest, Empty.(rv := NoToken));
    assert [] + Header(rest, Empty).found == Header(rest, Empty).found;
  }

  /** Behind a cookie the same: the cookie is added, and its version is not that of the rest. */
  lemma JunkBehindCookie(x: bytes, sep: byte, rest: bytes, c: Option<Found>, version: nat, j: Jar)
    requires IsJunk(x) && !IsSpace(x[0]) && (sep == SEMI || sep == COMMA)
    ensures Pairs(x + ([sep] + rest), c, version, j) == Header(rest, Add(j, c).(rv := NoToken))
  {
    JunkPairs(x, [sep] + rest, c, version, j);
    assert ([sep] + rest)[1..] == rest;
  }
}
