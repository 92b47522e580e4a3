/** Laws of cookie headers: every cookie is added at most once and in order, which headers
    lose one, a resynchronised parse is a fresh one, and only pairs are read. */
module CookieLaws {
  import opened Bytes
  import opened CookieGrammar

  // ------------------------------------------------------------ a fresh start

  /** What a parse adds to a jar that already has something in it. */
  function Joined(j: Jar, k: Jar): Jar {
    Jar(if k.rv == Success then j.rv else k.rv, j.found + k.found, j.seen + k.seen)
  }

  lemma AddJoined(j: Jar, k: Jar, c: Option<Found>)
    ensures Add(Joined(j, k), c) == Joined(j, Add(k, c))
  {
    match c
    case None =>
    case Some(f) => assert (j.found + k.found) + [f] == j.found + (k.found + [f]);
  }

  lemma SeenJoined(j: Jar, k: Jar, n: nat)
    ensures Joined(j, k).(seen := Joined(j, k).seen + [n]) == Joined(j, k.(seen := k.seen + [n]))
  {
    assert (j.seen + k.seen) + [n] == j.seen + (k.seen + [n]);
  }

  lemma {:induction false} HeaderJoined(s: bytes, j: Jar, k: Jar)
    ensures Header(s, Joined(j, k)) == Joined(j, Header(s, k))
    decreases |s|, 2
  {
    var t := SkipSpace(s);
    if !IsVersion(t) {
      PairsJoined(t, None, 0, j, k);
    } else {
      var v := SkipVersion(t);
      if Head(v) != 0 {
        if v[0] == COMMA {
          HeaderJoined(v[1..], j, k);
        } else {
          PairsJoined(v[1..], None, 1, j, k);
        }
      }
    }
  }

  lemma {:induction false} PairsJoined(s: bytes, c: Option<Found>, version: nat, j: Jar, k: Jar)
    ensures Pairs(s, c, version, Joined(j, k)) == Joined(j, Pairs(s, c, version, k))
    decreases |s|, 1
  {
    var t := SkipSemis(s);
    AddJoined(j, k, c);
    if Head(t) == 0 {
    } else if t[0] == COMMA {
      HeaderJoined(t[1..], j, Add(k, c));
    } else if t[0] == DOLLAR {
      AttrJoined(t[1..], c, version, j, k);
    } else {
      var p := GetPair(t, false);
      if p.st != Success {
        ResyncJoined(p.rest, None, j, Add(k, c).(rv := p.st));
      } else {
        SeenJoined(j, Add(k, c), |t|);
        PairsJoined(p.rest, Some(Found(|t|, MakeCookie(p.name, p.value, version))), version, j,
                    Add(k, c).(seen := k.seen + [|t|]));
      }
    }
  }

  lemma {:induction false} AttrJoined(s: bytes, c: Option<Found>, version: nat, j: Jar, k: Jar)
    ensures AttrPair(s, c, version, Joined(j, k)) == Joined(j, AttrPair(s, c, version, k))
    decreases |s|, 2
  {
    match c
    case None => ResyncJoined(s, None, j, k.(rv := BadChar));
    case Some(f) =>
      var p := GetPair(s, true);
      if p.st != Success {
        ResyncJoined(p.rest, c, j, k.(rv := p.st));
      } else {
        var a := CookieAttr(f.cookie, p.name, p.value);
        if a.st == NotImpl {
          PairsJoined(p.rest, c, version, j, k.(rv := BadAttr));
        } else if a.st != Success {
          ResyncJoined(p.rest, c, j, k.(rv := a.st));
        } else {
          PairsJoined(p.rest, Some(f.(cookie := a.c)), version, j, if version == 0 then k.(rv := Mismatch) else k);
        }
      }
  }

  lemma {:induction false} ResyncJoined(s: bytes, c: Option<Found>, j: Jar, k: Jar)
    ensures Resync(s, c, Joined(j, k)) == Joined(j, Resync(s, c, k))
    decreases |s|, 0
  {
    if Head(s) != 0 {
      AddJoined(j, k, c);
      if s[0] == COMMA || s[0] == SEMI {
        HeaderJoined(s[1..], j, Add(k, c));
      } else {
        ResyncJoined(s[1..], c, j, k);
      }
    }
  }

  /** Behind a comma or a resynchronisation the rest is parsed as a header of its own. */
  lemma ResyncIsFresh(s: bytes, j: Jar)
    ensures Header(s, j) == Joined(j, Header(s, Empty))
  {
    assert j.found + [] == j.found && j.seen + [] == j.seen;
    HeaderJoined(s, j, Empty);
  }

  // ------------------------------------------------------------ what is read lies in the header

  predicate IsTail(r: bytes, s: bytes) { |r| <= |s| && s[|s| - |r|..] == r }

  lemma TailOf(a: bytes, b: bytes, c: bytes)
    requires IsTail(a, b) && IsTail(b, c)
    ensures IsTail(a, c)
  {
    assert c[|c| - |a|..] == c[|c| - |b|..][|b| - |a|..];
  }

  lemma OneOn(a: bytes, s: bytes)
    requires s != [] && IsTail(a, s[1..])
    ensures IsTail(a, s)
  {
    assert IsTail(s[1..], s);
    TailOf(a, s[1..], s);
  }

  lemma {:induction false} SkipSpaceTail(s: bytes)
    ensures IsTail(SkipSpace(s), s)
  {
    if s != [] && IsSpace(s[0]) {
      SkipSpaceTail(s[1..]);
      OneOn(SkipSpace(s[1..]), s);
    }
  }

  lemma {:induction false} SkipSemisTail(s: bytes)
    ensures IsTail(SkipSemis(s), s)
  {
    if s != [] && (s[0] == SEMI || IsSpace(s[0])) {
      SkipSemisTail(s[1..]);
      OneOn(SkipSemis(s[1..]), s);
    }
  }

  lemma {:induction false} SkipVersionTail(s: bytes)
    ensures IsTail(SkipVersion(s), s)
  {
    if !EndsPair(Head(s)) {
      SkipVersionTail(s[1..]);
      OneOn(SkipVersion(s[1..]), s);
    }
  }

  lemma {:induction false} SkipLeadTail(s: bytes)
    ensures IsTail(SkipLead(s), s)
  {
    if s != [] && (IsSpace(s[0]) || s[0] == EQUALS) {
      SkipLeadTail(s[1..]);
      OneOn(SkipLead(s[1..]), s);
    }
  }

  lemma {:induction false} ScanNameTail(s: bytes, name: bytes, isSet: bool)
    ensures IsTail(ScanName(s, name, isSet).rest, s)
    decreases |s|
  {
    assert IsTail(s, s);
    if !EndsPair(Head(s)) {
      if s[0] == EQUALS {
        assert IsTail(s[1..], s);
      } else {
        ScanNameTail(s[1..], if isSet || IsLineBlank(s[0]) then name else name + [s[0]], isSet || IsLineBlank(s[0]));
        OneOn(ScanName(s[1..], if isSet || IsLineBlank(s[0]) then name else name + [s[0]], isSet || IsLineBlank(s[0])).rest, s);
      }
    }
  }

  lemma {:induction false} ScanBareTail(s: bytes)
    ensures IsTail(ScanBare(s).rest, s)
  {
    if !EndsBare(Head(s)) {
      ScanBareTail(s[1..]);
      OneOn(ScanBare(s[1..]).rest, s);
    }
  }

  lemma {:induction false} ScanQuotedTail(s: bytes)
    ensures IsTail(ScanQuoted(s).rest, s)
    decreases |s|
  {
    var c := Head(s);
    if c == 0 {
    } else if c == QUOTE {
      assert IsTail(s[1..], s);
    } else if c == BACKSLASH && Head(s[1..]) != 0 {
      ScanQuotedTail(s[2..]);
      assert s[1..][1..] == s[2..];
      OneOn(ScanQuoted(s[2..]).rest, s[1..]);
      OneOn(ScanQuoted(s[2..]).rest, s);
    } else {
      ScanQuotedTail(s[1..]);
      OneOn(ScanQuoted(s[1..]).rest, s);
    }
  }

  lemma GetPairTail(s: bytes, unquote: bool)
    ensures IsTail(GetPair(s, unquote).rest, s)
  {
    var k := SkipLead(s);
    SkipLeadTail(s);
    ScanNameTail(k, [], false);
    var n := ScanName(k, [], false);
    TailOf(n.rest, k, s);
    if n.found {
      var v := SkipSpace(n.rest);
      SkipSpaceTail(n.rest);
      TailOf(v, n.rest, s);
      ReadValueTail(v, unquote);
      TailOf(ReadValue(v, unquote).rest, v, s);
    }
  }

  lemma ReadValueTail(v: bytes, unquote: bool)
    ensures IsTail(ReadValue(v, unquote).rest, v)
  {
    if Head(v) == QUOTE {
      ScanQuotedTail(v[1..]);
      OneOn(ScanQuoted(v[1..]).rest, v);
    } else {
      ScanBareTail(v);
    }
  }

  // ------------------------------------------------------------ only pairs are read

  predicate AllLead(x: bytes) { forall i :: 0 <= i < |x| ==> IsSpace(x[i]) || x[i] == EQUALS }

  predicate AllSpace(x: bytes) { forall i :: 0 <= i < |x| ==> IsSpace(x[i]) }

  /** No separator, '=' or line blank. */
  predicate PlainName(n: bytes) { forall i :: 0 <= i < |n| ==> !EndsPair(n[i]) && n[i] != EQUALS && !IsLineBlank(n[i]) }

  /** What scan_name passes over behind a name: nothing, or what a blank begins. */
  predicate Passed(x: bytes) {
    (forall i :: 0 <= i < |x| ==> !EndsPair(x[i]) && x[i] != EQUALS) && (x != [] ==> IsLineBlank(x[0]))
  }

  lemma {:induction false} LeadLies(s: bytes) returns (x: bytes)
    ensures s == x + SkipLead(s) && AllLead(x)
    decreases |s|
  {
    if s != [] && (IsSpace(s[0]) || s[0] == EQUALS) {
      x := LeadLies(s[1..]);
      assert s == [s[0]] + (x + SkipLead(s[1..]));
      x := [s[0]] + x;
    } else {
      x := [];
    }
  }

  lemma {:induction false} SpaceLies(s: bytes) returns (x: bytes)
    ensures s == x + SkipSpace(s) && AllSpace(x)
    decreases |s|
  {
    if s != [] && IsSpace(s[0]) {
      x := SpaceLies(s[1..]);
      assert s == [s[0]] + (x + SkipSpace(s[1..]));
      x := [s[0]] + x;
    } else {
      x := [];
    }
  }

  /** Behind the end of a name, all up to the '=' is passed over. */
  lemma {:induction false} PassedLies(s: bytes, name: bytes) returns (x: bytes)
    requires ScanName(s, name, true).found
    ensures ScanName(s, name, true).name == name && s == x + ([EQUALS] + ScanName(s, name, true).rest)
    ensures forall i :: 0 <= i < |x| ==> !EndsPair(x[i]) && x[i] != EQUALS
    decreases |s|
  {
    if s[0] == EQUALS {
      x := [];
    } else {
      x := PassedLies(s[1..], name);
      assert s == [s[0]] + (x + ([EQUALS] + ScanName(s, name, true).rest));
      x := [s[0]] + x;
    }
  }

  lemma {:induction false} NameLies(s: bytes, acc: bytes) returns (n: bytes, x: bytes)
    requires ScanName(s, acc, false).found
    ensures ScanName(s, acc, false).name == acc + n && s == n + (x + ([EQUALS] + ScanName(s, acc, false).rest))
    ensures PlainName(n) && Passed(x)
    decreases |s|
  {
    var tail := [EQUALS] + ScanName(s, acc, false).rest;
    if s[0] == EQUALS {
      n, x := [], [];
    } else if IsLineBlank(s[0]) {
      x := PassedLies(s[1..], acc);
      assert s == [s[0]] + (x + tail);
      n, x := [], [s[0]] + x;
    } else {
      n, x := NameLies(s[1..], acc + [s[0]]);
      assert s == [s[0]] + (n + (x + tail));
      assert (acc + [s[0]]) + n == acc + ([s[0]] + n);
      n := [s[0]] + n;
    }
  }

  lemma {:induction false} BareLies(s: bytes)
    ensures
      var v := ScanBare(s);
      && v.ok && s == v.value + v.rest && EndsBare(Head(v.rest))
      && forall i :: 0 <= i < |v.value| ==> !EndsBare(v.value[i])
    decreases |s|
  {
    if !EndsBare(Head(s)) {
      BareLies(s[1..]);
      var v := ScanBare(s[1..]);
      assert s == [s[0]] + s[1..];
      Assoc([s[0]], v.value, v.rest);
    }
  }

  lemma {:induction false} QuotedLies(s: bytes)
    ensures ScanQuoted(s).ok ==> s == ScanQuoted(s).value + ([QUOTE] + ScanQuoted(s).rest)
    decreases |s|
  {
    var c := Head(s);
    if c == 0 || c == QUOTE {
    } else if c == BACKSLASH && Head(s[1..]) != 0 {
      QuotedLies(s[2..]);
      var q := ScanQuoted(s[2..]);
      assert s == [c, s[1]] + s[2..];
      Assoc([c, s[1]], q.value, [QUOTE] + q.rest);
    } else {
      QuotedLies(s[1..]);
      var q := ScanQuoted(s[1..]);
      assert s == [c] + s[1..];
      Assoc([c], q.value, [QUOTE] + q.rest);
    }
  }

  /** text is how the value v is written: bare up to a blank or separator, or in quotes. */
  ghost predicate Writes(text: bytes, v: bytes, rest: bytes, unquote: bool) {
    || (text == v && EndsBare(Head(rest)) && (forall i :: 0 <= i < |v| ==> !EndsBare(v[i])) && (v != [] ==> v[0] != QUOTE))
    || exists body :: text == [QUOTE] + body + [QUOTE] && ScanQuoted(body + ([QUOTE] + rest)) == Value(true, body, rest)
                      && v == if unquote then Unescape(body) else text
  }

  lemma QuotesAround(body: bytes, rest: bytes)
    ensures ([QUOTE] + body + [QUOTE]) + rest == [QUOTE] + (body + ([QUOTE] + rest))
  {
    Assoc([QUOTE] + body, [QUOTE], rest);
    Assoc([QUOTE], body, [QUOTE] + rest);
  }

  lemma QuotedWrites(text: bytes, body: bytes, v: bytes, rest: bytes, unquote: bool)
    requires text == [QUOTE] + body + [QUOTE] && ScanQuoted(body + ([QUOTE] + rest)) == Value(true, body, rest)
    requires v == if unquote then Unescape(body) else text
    ensures Writes(text, v, rest, unquote)
  {
  }

  lemma ValueLies(s: bytes, unquote: bool) returns (text: bytes)
    requires ReadValue(s, unquote).ok
    ensures
      var v := ReadValue(s, unquote);
      s == text + v.rest && Writes(text, v.value, v.rest, unquote)
  {
    if Head(s) == QUOTE {
      var q := ScanQuoted(s[1..]);
      QuotedLies(s[1..]);
      text := [QUOTE] + q.value + [QUOTE];
      assert s == [QUOTE] + s[1..];
      QuotesAround(q.value, q.rest);
      QuotedWrites(text, q.value, if unquote then Unescape(q.value) else text, q.rest, unquote);
    } else {
      BareLies(s);
      text := ScanBare(s).value;
    }
  }

  /** Where get_pair succeeds there is a name, an '=' and a written value, and it has read
      just these: blanks and '=' may stand in front, and blanks around the '='. */
  lemma OnlyPairsRead(s: bytes, unquote: bool) returns (lead: bytes, x: bytes, gap: bytes, text: bytes)
    requires GetPair(s, unquote).st == Success
    ensures
      var p := GetPair(s, unquote);
      && s == lead + (p.name + (x + ([EQUALS] + (gap + (text + p.rest)))))
      && AllLead(lead) && PlainName(p.name) && Passed(x) && AllSpace(gap) && Writes(text, p.value, p.rest, unquote)
  {
    lead := LeadLies(s);
    var k := SkipLead(s);
    var n;
    n, x := NameLies(k, []);
    assert [] + n == n;
    var r := ScanName(k, [], false).rest;
    gap := SpaceLies(r);
    text := ValueLies(SkipSpace(r), unquote);
  }

  // ------------------------------------------------------------ order, and nothing twice

  function Lefts(fs: seq<Found>): (r: seq<nat>)
    ensures |r| == |fs| && forall i :: 0 <= i < |fs| ==> r[i] == fs[i].left
  {
    seq(|fs|, i requires 0 <= i < |fs| => fs[i].left)
  }

  function Pending(c: Option<Found>): seq<nat> { match c case Some(f) => [f.left] case None => [] }

  /** Places further and further behind, all in front of the last n bytes. */
  ghost predicate Descending(ls: seq<nat>, n: nat) {
    && (forall i, k :: 0 <= i < k < |ls| ==> ls[i] > ls[k])
    && (forall i :: 0 <= i < |ls| ==> ls[i] > n)
  }

  /** The cookie's name and value are those of the pair at its place in the header. */
  ghost predicate Genuine(h: bytes, f: Found) {
    f.left <= |h| &&
    var p := GetPair(h[|h| - f.left..], false);
    p.st == Success && p.name == f.cookie.name && p.value == f.cookie.value
  }

  ghost predicate AllGenuine(h: bytes, fs: seq<Found>) { forall i :: 0 <= i < |fs| ==> Genuine(h, fs[i]) }

  /** All pairs read so far are in the jar or current, and s is what is left of h. */
  ghost predicate Kept(h: bytes, j: Jar, c: Option<Found>, s: bytes) {
    && IsTail(s, h) && Descending(j.seen, |s|) && Lefts(j.found) + Pending(c) == j.seen
    && AllGenuine(h, j.found) && (c.Some? ==> Genuine(h, c.value))
  }

  /** The outcome: nothing is lost, or the parse failed and the last cookie is. */
  ghost predicate Complete(h: bytes, j: Jar) {
    && Descending(j.seen, 0) && AllGenuine(h, j.found)
    && (Lefts(j.found) == j.seen
        || (j.rv != Success && j.seen != [] && Lefts(j.found) == j.seen[..|j.seen| - 1]))
  }

  lemma AddKeeps(h: bytes, j: Jar, c: Option<Found>, s: bytes, r: bytes)
    requires Kept(h, j, c, s) && IsTail(r, s)
    ensures Kept(h, Add(j, c), None, r) && Kept(h, j, c, r)
  {
    TailOf(r, s, h);
    match c
    case None => assert Lefts(j.found) + [] == Lefts(j.found);
    case Some(f) =>
      assert Lefts(j.found + [f]) == Lefts(j.found) + [f.left];
      assert Lefts(j.found + [f]) + [] == Lefts(j.found + [f]);
  }

  lemma NewKeeps(h: bytes, j: Jar, s: bytes, p: Pair, version: nat)
    requires Kept(h, j, None, s) && p == GetPair(s, false) && p.st == Success && |p.rest| < |s|
    ensures Kept(h, j.(seen := j.seen + [|s|]), Some(Found(|s|, MakeCookie(p.name, p.value, version))), p.rest)
  {
    GetPairTail(s, false);
    TailOf(p.rest, s, h);
    assert Lefts(j.found) + [] == Lefts(j.found);
  }

  lemma Closes(h: bytes, j: Jar, c: Option<Found>, s: bytes)
    requires Kept(h, j, c, s)
    ensures c == None || j.rv != Success ==> Complete(h, j)
  {
    assert Lefts(j.found) + [] == Lefts(j.found);
    match c
    case None =>
    case Some(f) => assert j.seen[..|j.seen| - 1] == Lefts(j.found);
  }

  lemma {:induction false} HeaderInOrder(h: bytes, s: bytes, j: Jar)
    requires Kept(h, j, None, s)
    ensures Complete(h, Header(s, j))
    decreases |s|, 2
  {
    var t := SkipSpace(s);
    SkipSpaceTail(s);
    AddKeeps(h, j, None, s, t);
    if !IsVersion(t) {
      PairsInOrder(h, t, None, 0, j);
    } else {
      var v := SkipVersion(t);
      SkipVersionTail(t);
      AddKeeps(h, j, None, t, v);
      if Head(v) == 0 {
        Closes(h, j, None, s);
      } else {
        AddKeeps(h, j, None, v, v[1..]);
        if v[0] == COMMA {
          HeaderInOrder(h, v[1..], j);
        } else {
          PairsInOrder(h, v[1..], None, 1, j);
        }
      }
    }
  }

  lemma {:induction false} PairsInOrder(h: bytes, s: bytes, c: Option<Found>, version: nat, j: Jar)
    requires Kept(h, j, c, s)
    ensures Complete(h, Pairs(s, c, version, j))
    decreases |s|, 1
  {
    var t := SkipSemis(s);
    SkipSemisTail(s);
    AddKeeps(h, j, c, s, t);
    if Head(t) == 0 {
      Closes(h, Add(j, c), None, t);
    } else if t[0] == COMMA {
      AddKeeps(h, Add(j, c), None, t, t[1..]);
      HeaderInOrder(h, t[1..], Add(j, c));
    } else if t[0] == DOLLAR {
      AddKeeps(h, j, c, t, t[1..]);
      AttrInOrder(h, t[1..], c, version, j);
    } else {
      var p := GetPair(t, false);
      if p.st != Success {
        GetPairTail(t, false);
        AddKeeps(h, Add(j, c), None, t, p.rest);
        ResyncInOrder(h, p.rest, None, Add(j, c).(rv := p.st));
      } else {
        NewKeeps(h, Add(j, c), t, p, version);
        PairsInOrder(h, p.rest, Some(Found(|t|, MakeCookie(p.name, p.value, version))), version,
                     Add(j, c).(seen := j.seen + [|t|]));
      }
    }
  }

  lemma {:induction false} AttrInOrder(h: bytes, s: bytes, c: Option<Found>, version: nat, j: Jar)
    requires Kept(h, j, c, s)
    ensures Complete(h, AttrPair(s, c, version, j))
    decreases |s|, 2
  {
    match c
    case None => ResyncInOrder(h, s, None, j.(rv := BadChar));
    case Some(f) =>
      var p := GetPair(s, true);
      GetPairTail(s, true);
      AddKeeps(h, j, c, s, p.rest);
      if p.st != Success {
        ResyncInOrder(h, p.rest, c, j.(rv := p.st));
      } else {
        var a := CookieAttr(f.cookie, p.name, p.value);
        if a.st == NotImpl {
          PairsInOrder(h, p.rest, c, version, j.(rv := BadAttr));
        } else if a.st != Success {
          ResyncInOrder(h, p.rest, c, j.(rv := a.st));
        } else {
          PairsInOrder(h, p.rest, Some(f.(cookie := a.c)), version, if version == 0 then j.(rv := Mismatch) else j);
        }
      }
  }

  lemma {:induction false} ResyncInOrder(h: bytes, s: bytes, c: Option<Found>, j: Jar)
    requires Kept(h, j, c, s) && j.rv != Success
    ensures Complete(h, Resync(s, c, j))
    decreases |s|, 0
  {
    if Head(s) == 0 {
      Closes(h, j, c, s);
    } else {
      AddKeeps(h, j, c, s, s[1..]);
      if s[0] == COMMA || s[0] == SEMI {
        HeaderInOrder(h, s[1..], Add(j, c));
      } else {
        ResyncInOrder(h, s[1..], c, j);
      }
    }
  }

  /** Every pair read as a cookie is added at most once, in header order, with the name and
      value at its place; all are when the parse succeeds, and otherwise only the last can
      be missing. */
  lemma CookiesInOrder(h: bytes)
    ensures Complete(h, Header(h, Empty))
    ensures Header(h, Empty).rv == Success ==> Lefts(Header(h, Empty).found) == Header(h, Empty).seen
  {
    assert Lefts(Empty.found) + [] == [];
    HeaderInOrder(h, h, Empty);
  }

  // ------------------------------------------------------------ when a cookie is lost

  /** What stands behind the next comma or semicolon, if there is one. */
  function Restart(s: bytes): (r: Option<bytes>)
    ensures r.Some? ==> |r.value| < |s|
  {
    if Head(s) == 0 then None
    else if s[0] == COMMA || s[0] == SEMI then Some(s[1..])
    else Restart(s[1..])
  }

  /** An attribute that ends the pair it belongs to: it has no name, or it is a version
      without a digit. */
  predicate BadAttribute(attr: bytes, val: bytes) {
    |attr| < 2 ||
    var a := if attr[0] == DASH || attr[0] == DOLLAR then attr[1..] else attr;
    Lower(a[0]) == 118 && !SameNoCase(a, Lit("value")) && Version(val).None?
  }

  lemma BadAttributeIs(c: Cookie, attr: bytes, val: bytes)
    ensures BadAttribute(attr, val) <==> CookieAttr(c, attr, val).st !in {Success, NotImpl}
  {
  }

  /** The attribute behind a $ is refused. */
  predicate AttrRefused(p: Pair) { p.st != Success || BadAttribute(p.name, p.value) }

  /** The header ends in a refused attribute of a cookie, with no comma or semicolon
      behind it. */
  predicate LosesLast(s: bytes)
    decreases |s|, 2
  {
    var k := SkipSpace(s);
    if !IsVersion(k) then PairsLose(k, false)
    else
      var v := SkipVersion(k);
      Head(v) != 0 && if v[0] == COMMA then LosesLast(v[1..]) else PairsLose(v[1..], false)
  }

  /** The same from a place between pairs; open says whether a cookie stands in front. */
  predicate PairsLose(s: bytes, open: bool)
    decreases |s|, 1
  {
    var k := SkipSemis(s);
    if Head(k) == 0 then false
    else if k[0] == COMMA then LosesLast(k[1..])
    else if k[0] == DOLLAR then
      if !open then RestLoses(k[1..], false)
      else
        var p := GetPair(k[1..], true);
        if AttrRefused(p) then RestLoses(p.rest, true) else PairsLose(p.rest, true)
    else
      var p := GetPair(k, false);
      if p.st != Success then RestLoses(p.rest, false) else PairsLose(p.rest, true)
  }

  /** The same from behind an error. */
  predicate RestLoses(s: bytes, open: bool)
    decreases |s|, 0
  {
    match Restart(s) case None => open case Some(r) => LosesLast(r)
  }

  /** Every pair read so far is in the jar or current. */
  ghost predicate Counted(j: Jar, c: Option<Found>) { Lefts(j.found) + Pending(c) == j.seen }

  /** Every pair read is in the jar at the end, unless loses. */
  ghost predicate Ends(r: Jar, loses: bool) { Lefts(r.found) == r.seen <==> !loses }

  lemma AddCounts(j: Jar, c: Option<Found>)
    requires Counted(j, c)
    ensures Counted(Add(j, c), None)
    ensures Lefts(j.found) == j.seen <==> c == None
  {
    match c
    case None => assert Lefts(j.found) + [] == Lefts(j.found);
    case Some(f) =>
      assert Lefts(j.found + [f]) == Lefts(j.found) + [f.left];
      assert Lefts(j.found + [f]) + [] == Lefts(j.found + [f]);
  }

  lemma NewCounts(j: Jar, f: Found)
    requires Counted(j, None)
    ensures Counted(j.(seen := j.seen + [f.left]), Some(f))
  {
    assert Lefts(j.found) + [] == Lefts(j.found);
  }

  lemma {:induction false} HeaderCounts(s: bytes, j: Jar)
    requires Counted(j, None)
    ensures Ends(Header(s, j), LosesLast(s))
    decreases |s|, 2
  {
    var t := SkipSpace(s);
    AddCounts(j, None);
    if !IsVersion(t) {
      PairsCount(t, None, 0, j);
    } else {
      var v := SkipVersion(t);
      if Head(v) != 0 {
        if v[0] == COMMA { HeaderCounts(v[1..], j); } else { PairsCount(v[1..], None, 1, j); }
      }
    }
  }

  lemma {:induction false} PairsCount(s: bytes, c: Option<Found>, version: nat, j: Jar)
    requires Counted(j, c)
    ensures Ends(Pairs(s, c, version, j), PairsLose(s, c.Some?))
    decreases |s|, 1
  {
    var t := SkipSemis(s);
    AddCounts(j, c);
    if Head(t) == 0 {
      AddCounts(Add(j, c), None);
    } else if t[0] == COMMA {
      HeaderCounts(t[1..], Add(j, c));
    } else if t[0] == DOLLAR {
      AttrCounts(t[1..], c, version, j);
    } else {
      var p := GetPair(t, false);
      if p.st != Success {
        RestCounts(p.rest, None, Add(j, c).(rv := p.st));
      } else {
        var f := Found(|t|, MakeCookie(p.name, p.value, version));
        NewCounts(Add(j, c), f);
        PairsCount(p.rest, Some(f), version, Add(j, c).(seen := j.seen + [|t|]));
      }
    }
  }

  lemma {:induction false} AttrCounts(s: bytes, c: Option<Found>, version: nat, j: Jar)
    requires Counted(j, c)
    ensures
      var p := GetPair(s, true);
      Ends(AttrPair(s, c, version, j),
           if c == None then RestLoses(s, false) else if AttrRefused(p) then RestLoses(p.rest, true) else PairsLose(p.rest, true))
    decreases |s|, 2
  {
    match c
    case None => RestCounts(s, None, j.(rv := BadChar));
    case Some(f) =>
      var p := GetPair(s, true);
      if p.st != Success {
        RestCounts(p.rest, c, j.(rv := p.st));
      } else {
        var a := CookieAttr(f.cookie, p.name, p.value);
        BadAttributeIs(f.cookie, p.name, p.value);
        if a.st == NotImpl {
          PairsCount(p.rest, c, version, j.(rv := BadAttr));
        } else if a.st != Success {
          RestCounts(p.rest, c, j.(rv := a.st));
        } else {
          PairsCount(p.rest, Some(f.(cookie := a.c)), version, if version == 0 then j.(rv := Mismatch) else j);
        }
      }
  }

  /** After an error the current cookie is added at the next comma or semicolon, where
      another header begins, and lost if there is none. */
  lemma {:induction false} CookieAtError(s: bytes, c: Option<Found>, j: Jar)
    ensures Resync(s, c, j) == match Restart(s) case None => j case Some(r) => Header(r, Add(j, c))
    decreases |s|
  {
    if Head(s) != 0 && s[0] != COMMA && s[0] != SEMI { CookieAtError(s[1..], c, j); }
  }

  lemma {:induction false} RestCounts(s: bytes, c: Option<Found>, j: Jar)
    requires Counted(j, c)
    ensures Ends(Resync(s, c, j), RestLoses(s, c.Some?))
    decreases |s|, 0
  {
    AddCounts(j, c);
    CookieAtError(s, c, j);
    match Restart(s)
    case None =>
    case Some(r) => HeaderCounts(r, Add(j, c));
  }

  /** A pair that was read as a cookie is missing in the end exactly if the header ends in a
      refused attribute of it; then it is the last one, and the only one. */
  lemma LostExactly(h: bytes)
    ensures
      var r := Header(h, Empty);
      && (Lefts(r.found) != r.seen <==> LosesLast(h))
      && (LosesLast(h) ==> r.rv != Success && r.seen != [] && Lefts(r.found) == r.seen[..|r.seen| - 1])
  {
    assert Lefts(Empty.found) + [] == [];
    HeaderCounts(h, Empty);
    CookiesInOrder(h);
  }

  /** Such a header is a=1;$ */
  lemma LastCookieLost()
    ensures
      var h := [97, EQUALS, 49, SEMI, DOLLAR];
      LosesLast(h) && Header(h, Empty) == Jar(BadChar, [], [5])
  {
    var h, v := [97, EQUALS, 49, SEMI, DOLLAR], [49, SEMI, DOLLAR];
    APair(h, v);
    assert SkipSemis(h) == h && [] + [5] == [5];
    var c := Some(Found(5, MakeCookie([97], [49], 0)));
    var j := Jar(Success, [], [5]);
    ADollar(v[1..], c, j);
    assert Pairs(h, None, 0, Empty) == Pairs(v[1..], c, 0, j);
    assert PairsLose(h, false) == PairsLose(v[1..], true);
  }

  lemma ADollar(s: bytes, c: Option<Found>, j: Jar)
    requires s == [SEMI, DOLLAR] && c.Some?
    ensures PairsLose(s, true) && Pairs(s, c, 0, j) == j.(rv := BadChar)
  {
    assert s[1..] == [DOLLAR] && SkipSemis([DOLLAR]) == [DOLLAR];
    assert SkipSemis(s) == [DOLLAR] && [DOLLAR][1..] == [];
    var p := GetPair([], true);
    assert SkipLead([]) == [] && ScanName([], [], false) == Name(false, [], []);
    assert p.st == BadChar && p.rest == [];
    assert RestLoses(p.rest, true);
  }

  lemma APair(h: bytes, v: bytes)
    requires h == [97, EQUALS, 49, SEMI, DOLLAR] && v == [49, SEMI, DOLLAR]
    ensures GetPair(h, false) == Pair(Success, [97], [49], v[1..])
  {
    assert h[1..] == [EQUALS] + v && h[1..][1..] == v;
    assert ScanName(h, [], false) == ScanName(h[1..], [97], false) == Name(true, [97], v) by { assert [] + [97] == [97]; }
    assert v[1..] == [SEMI, DOLLAR] && ScanBare(v) == Value(true, [49], v[1..]);
  }
}
