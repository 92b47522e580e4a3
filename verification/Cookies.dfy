/** The scanning loops of library/cookie.c over a header, a jar being filled on the way. */
module Cookies {
  import opened Bytes
  import opened CookieGrammar
  import opened CookieRoundTrip
  import Brigades

  lemma OneOn(h: bytes, i: nat)
    requires i < |h|
    ensures h[i..] != [] && h[i..][0] == h[i] && h[i..][1..] == h[i + 1..]
  {
  }

  // ------------------------------------------------------------ get_pair

  method FindLead(h: bytes, p: nat) returns (i: nat)
    requires p <= |h|
    ensures p <= i <= |h| && h[i..] == SkipLead(h[p..])
  {
    i := p;
    while i < |h| && (IsSpace(h[i]) || h[i] == EQUALS)
      invariant p <= i <= |h| && SkipLead(h[p..]) == SkipLead(h[i..])
    {
      OneOn(h, i);
      i := i + 1;
    }
  }

  method FindNonSpace(h: bytes, p: nat) returns (i: nat)
    requires p <= |h|
    ensures p <= i <= |h| && h[i..] == SkipSpace(h[p..])
  {
    i := p;
    while i < |h| && IsSpace(h[i])
      invariant p <= i <= |h| && SkipSpace(h[p..]) == SkipSpace(h[i..])
    {
      OneOn(h, i);
      i := i + 1;
    }
  }

  /** scan_name, from key on */
  method FindName(h: bytes, key: nat) returns (n: Name, i: nat)
    requires key <= |h|
    ensures key <= i <= |h| && n == ScanName(h[key..], [], false) && n.rest == h[i..]
  {
    var nlen: nat, nlenSet := 0, false;
    i := key;
    ghost var name: bytes := [];
    ghost var goal := ScanName(h[key..], [], false);
    while i < |h| && !EndsPair(h[i]) && h[i] != EQUALS
      invariant key <= i <= |h| && NameSoFar(h, key, i, nlen, nlenSet, name, goal)
    {
      ghost var i0, nlen0, set0, name0 := i, nlen, nlenSet, name;
      if IsLineBlank(h[i]) && !nlenSet {
        nlen, nlenSet := i - key, true;
      }
      if !nlenSet { name := name + [h[i]]; }
      i := i + 1;
      NameStep(h, key, i0, nlen0, set0, name0, goal, i, nlen, nlenSet, name);
    }
    ghost var nlen0 := nlen;
    if !nlenSet {
      nlen := i - key;
    }
    NameEnds(h, key, i, nlen0, nlenSet, name, goal, nlen);
    n := Name(At(h, i) == EQUALS, h[key..key + nlen], h[i..]);
    if n.found {
      i := i + 1;
      n := n.(rest := h[i..]);
    }
  }

  /** nlen, once it is set, or else the scan position ends the name, and the rest of the
      scan comes to the same. */
  ghost predicate NameSoFar(h: bytes, key: nat, i: nat, nlen: nat, nlenSet: bool, name: bytes, goal: Name) {
    && key <= i <= |h| && goal == ScanName(h[i..], name, nlenSet)
    && if nlenSet then key + nlen <= i && name == h[key..key + nlen] else name == h[key..i]
  }

  lemma NameStep(h: bytes, key: nat, i: nat, nlen: nat, nlenSet: bool, name: bytes, goal: Name,
                 i': nat, nlen': nat, set': bool, name': bytes)
    requires NameSoFar(h, key, i, nlen, nlenSet, name, goal) && i < |h| && !EndsPair(h[i]) && h[i] != EQUALS
    requires i' == i + 1 && set' == (nlenSet || IsLineBlank(h[i])) && nlen' == (if set' && !nlenSet then i - key else nlen)
    requires name' == if set' then name else name + [h[i]]
    ensures NameSoFar(h, key, i', nlen', set', name', goal)
  {
    OneOn(h, i);
    assert h[key..i'] == h[key..i] + [h[i]];
  }

  /** The scan stops at an '=', a separator or the end; the name has len bytes. */
  lemma NameEnds(h: bytes, key: nat, i: nat, nlen: nat, nlenSet: bool, name: bytes, goal: Name, len: nat)
    requires NameSoFar(h, key, i, nlen, nlenSet, name, goal) && (i < |h| ==> EndsPair(h[i]) || h[i] == EQUALS)
    requires len == if nlenSet then nlen else i - key
    ensures
      var found := At(h, i) == EQUALS;
      && key + len <= |h| && (found ==> i < |h|)
      && goal == Name(found, h[key..key + len], if found then h[i + 1..] else h[i..])
  {
    if i < |h| { OneOn(h, i); }
  }

  lemma UnescapeStep(s: bytes, i: nat, dest: bytes)
    requires i < |s|
    ensures
      var k := if s[i] == BACKSLASH && i + 1 < |s| then i + 1 else i;
      dest + Unescape(s[i..]) == (dest + [s[k]]) + Unescape(s[k + 1..])
  {
    OneOn(s, i);
    var k := if s[i] == BACKSLASH && i + 1 < |s| then i + 1 else i;
    OneOn(s, k);
    assert s[i..][k + 1 - i..] == s[k + 1..];
    assert Unescape(s[i..]) == [s[k]] + Unescape(s[k + 1..]);
  }

  /** The copying loop that takes the backslashes out. */
  method CopyUnescaped(s: bytes) returns (dest: bytes)
    ensures dest == Unescape(s)
  {
    dest := [];
    var i := 0;
    assert s[0..] == s;
    while i < |s|
      invariant i <= |s| && Unescape(s) == dest + Unescape(s[i..])
    {
      UnescapeStep(s, i, dest);
      if s[i] == BACKSLASH && i + 1 < |s| {
        i := i + 1;
      }
      dest := dest + [s[i]];
      i := i + 1;
    }
    assert dest + [] == dest;
  }

  predicate NoBackslash(h: bytes, v: nat, val: nat) {
    v <= val <= |h| && forall j :: v <= j < val ==> h[j] != BACKSLASH
  }

  /** The value between two quotes. */
  method TakeQuoted(h: bytes, v: nat, val: nat, unquote: bool, sawBackslash: bool) returns (value: bytes)
    requires 0 < v <= val < |h| && h[v - 1] == QUOTE && h[val] == QUOTE
    requires !sawBackslash ==> NoBackslash(h, v, val)
    ensures value == if unquote then Unescape(h[v..val]) else [QUOTE] + h[v..val] + [QUOTE]
  {
    if !unquote {
      value := h[v - 1..val + 1];
    } else if !sawBackslash {
      UnescapePlain(h, v, val);
      value := h[v..val];
    } else {
      value := CopyUnescaped(h[v..val]);
    }
  }

  /** A value in quotes, from behind the opening one. */
  method FindQuoted(h: bytes, v: nat, unquote: bool) returns (r: Value, stop: nat)
    requires 0 < v <= |h| && h[v - 1] == QUOTE
    ensures r == ReadValue(h[v - 1..], unquote) && v <= stop <= |h| && r.rest == h[stop..]
  {
    var val, sawBackslash := v, false;
    QuotedStarts(h, v);
    while val < |h| && h[val] != 0
      invariant v <= val <= |h| && QuotedSoFar(h, v, val, sawBackslash)
    {
      if h[val] == QUOTE {
        var value := TakeQuoted(h, v, val, unquote, sawBackslash);
        QuoteCloses(h, v, val, sawBackslash, unquote, value);
        return Value(true, value, h[val + 1..]), val + 1;
      }
      ghost var val0, saw0 := val, sawBackslash;
      if h[val] == BACKSLASH {
        sawBackslash := true;
        if At(h, val + 1) != 0 {
          val := val + 1;
        }
      }
      val := val + 1;
      QuotedStep(h, v, val0, saw0, val, sawBackslash);
    }
    QuoteStaysOpen(h, v, val, sawBackslash, unquote);
    stop := val;
    r := Value(false, h[v..val], h[stop..]);
  }

  lemma QuotedStarts(h: bytes, v: nat)
    requires v <= |h|
    ensures QuotedSoFar(h, v, v, false)
  {
    assert h[v..v] + ScanQuoted(h[v..]).value == ScanQuoted(h[v..]).value;
  }

  lemma QuoteCloses(h: bytes, v: nat, val: nat, saw: bool, unquote: bool, value: bytes)
    requires 0 < v <= |h| && h[v - 1] == QUOTE && QuotedSoFar(h, v, val, saw) && val < |h| && h[val] == QUOTE
    requires value == if unquote then Unescape(h[v..val]) else [QUOTE] + h[v..val] + [QUOTE]
    ensures ReadValue(h[v - 1..], unquote) == Value(true, value, h[val + 1..])
  {
    OneOn(h, v - 1);
    OneOn(h, val);
    assert h[v..val] + [] == h[v..val];
  }

  lemma QuoteStaysOpen(h: bytes, v: nat, val: nat, saw: bool, unquote: bool)
    requires 0 < v <= |h| && h[v - 1] == QUOTE && QuotedSoFar(h, v, val, saw) && (val < |h| ==> h[val] == 0)
    ensures ReadValue(h[v - 1..], unquote) == Value(false, h[v..val], h[val..])
  {
    OneOn(h, v - 1);
    if val < |h| { OneOn(h, val); }
    assert h[v..val] + [] == h[v..val];
  }

  /** What the rest of the scan adds to the body read so far. */
  ghost predicate QuotedSoFar(h: bytes, v: nat, val: nat, saw: bool) {
    && v <= val <= |h| && (!saw ==> NoBackslash(h, v, val))
    && ScanQuoted(h[v..]) == Then(h[v..val], ScanQuoted(h[val..]))
  }

  lemma QuotedStep(h: bytes, v: nat, val: nat, saw: bool, next: nat, saw': bool)
    requires QuotedSoFar(h, v, val, saw) && val < |h| && h[val] != 0 && h[val] != QUOTE
    requires next == if h[val] == BACKSLASH && At(h, val + 1) != 0 then val + 2 else val + 1
    requires saw' == (saw || h[val] == BACKSLASH)
    ensures next <= |h| && QuotedSoFar(h, v, next, saw')
  {
    QuotedPart(h, val, next);
    ThenTwice(h, v, val, next, ScanQuoted(h[next..]));
    if !saw' { assert next == val + 1; }
  }

  lemma QuotedPart(h: bytes, val: nat, next: nat)
    requires val < |h| && h[val] != 0 && h[val] != QUOTE
    requires next == if h[val] == BACKSLASH && At(h, val + 1) != 0 then val + 2 else val + 1
    ensures next <= |h| && ScanQuoted(h[val..]) == Then(h[val..next], ScanQuoted(h[next..]))
  {
    OneOn(h, val);
    if next == val + 2 {
      OneOn(h, val + 1);
      DropTwice(h, val, 2, next);
      assert h[val..next] == [h[val], h[val + 1]];
    } else {
      assert h[val..next] == [h[val]];
    }
  }

  lemma ThenTwice(h: bytes, v: nat, i: nat, k: nat, q: Value)
    requires v <= i <= k <= |h|
    ensures Then(h[v..i], Then(h[i..k], q)) == Then(h[v..k], q)
  {
    assert h[v..k] == h[v..i] + h[i..k];
    assert h[v..i] + (h[i..k] + q.value) == h[v..k] + q.value;
  }

  lemma {:induction false} UnescapePlain(h: bytes, v: nat, val: nat)
    requires NoBackslash(h, v, val)
    ensures Unescape(h[v..val]) == h[v..val]
    decreases val - v
  {
    if v < val {
      UnescapePlain(h, v + 1, val);
      assert h[v..val] == [h[v]] + h[v + 1..val];
    }
  }

  /** A value that is not wrapped in quotes. */
  method FindBare(h: bytes, v: nat) returns (r: Value, stop: nat)
    requires v <= |h|
    ensures r == ScanBare(h[v..]) && v <= stop <= |h| && r.rest == h[stop..]
  {
    ghost var q := ScanBare(h[v..]);
    assert h[v..v] + q.value == q.value;
    stop := v;
    while stop < |h| && !EndsBare(h[stop])
      invariant v <= stop <= |h| && q == Then(h[v..stop], ScanBare(h[stop..]))
    {
      OneOn(h, stop);
      assert h[stop..stop + 1] == [h[stop]];
      ThenTwice(h, v, stop, stop + 1, ScanBare(h[stop + 1..]));
      stop := stop + 1;
    }
    r := Value(true, h[v..stop], h[stop..]);
    assert h[v..stop] + [] == h[v..stop];
  }

  /** The value at position v, quoted or bare. */
  method FindValue(h: bytes, v: nat, unquote: bool) returns (value: Value, stop: nat)
    requires v <= |h|
    ensures value == ReadValue(h[v..], unquote) && v <= stop <= |h| && value.rest == h[stop..]
  {
    if At(h, v) == QUOTE {
      value, stop := FindQuoted(h, v + 1, unquote);
    } else {
      value, stop := FindBare(h, v);
    }
  }

  /** get_pair at position p of the header */
  method FindPair(h: bytes, p: nat, unquote: bool) returns (r: Pair, stop: nat)
    requires p <= |h|
    ensures r == GetPair(h[p..], unquote) && p <= stop <= |h| && r.rest == h[stop..]
  {
    var key := FindLead(h, p);
    var n, i := FindName(h, key);
    if !n.found {
      return Pair(if n.name != [] then NoToken else BadChar, n.name, [], n.rest), i;
    }
    var v := FindNonSpace(h, i);
    var value;
    value, stop := FindValue(h, v, unquote);
    r := if value.ok then Pair(Success, n.name, value.value, value.rest) else Pair(BadSeq, n.name, [], value.rest);
  }

  // ------------------------------------------------------------ apreq_parse_cookie_header

  /** The labels of the parser: where it goes next. */
  datatype Label = AtHeader | AtPairs | AtError | AtEnd

  /** hdr, c, version and rv */
  datatype Locals = Locals(at: Label, hdr: nat, c: Option<Cookie>, version: nat, rv: Status)

  /** The spec's side: where c's pair starts, and the jar so far. */
  datatype Trace = Trace(left: nat, j: Jar)

  ghost function Current(l: Locals, g: Trace): Option<Found> {
    match l.c case None => None case Some(c) => Some(Found(g.left, c))
  }

  /** What the parse comes to from here on. */
  ghost function Outcome(h: bytes, l: Locals, g: Trace): Jar
    requires l.hdr <= |h|
  {
    match l.at
    case AtHeader => Header(h[l.hdr..], g.j)
    case AtPairs => Pairs(h[l.hdr..], Current(l, g), l.version, g.j)
    case AtError => Resync(h[l.hdr..], Current(l, g), g.j)
    case AtEnd => g.j
  }

  /** The table has got the jar's cookies, and rv its status. */
  ghost predicate Follows(rows0: seq<Cookie>, rows: seq<Cookie>, l: Locals, g: Trace) {
    rows == rows0 + CookieRoundTrip.Cookies(g.j.found) && l.rv == g.j.rv
  }

  /** One step through the labels that leaves the outcome as it is and gets on. */
  ghost predicate Stepped(h: bytes, l: Locals, g: Trace, l': Locals, g': Trace) {
    && l.hdr <= l'.hdr <= |h| && Outcome(h, l', g') == Outcome(h, l, g)
    && (l'.at == AtEnd || l'.hdr > l.hdr || (l.at == AtHeader && l'.at == AtPairs))
  }

  /** ADD_COOKIE(j, c) if there is a current cookie */
  method AddCurrent(t: Brigades.Table<Cookie>, l: Locals, ghost g: Trace, ghost rows0: seq<Cookie>)
    returns (ghost g': Trace)
    requires Follows(rows0, t.rows, l, g)
    modifies t
    ensures g' == Trace(g.left, Add(g.j, Current(l, g))) && Follows(rows0, t.rows, l, g')
  {
    g' := Trace(g.left, Add(g.j, Current(l, g)));
    if l.c.Some? {
      ghost var f := Found(g.left, l.c.value);
      assert CookieRoundTrip.Cookies(g.j.found + [f]) == CookieRoundTrip.Cookies(g.j.found) + [l.c.value];
      assert rows0 + (CookieRoundTrip.Cookies(g.j.found) + [l.c.value]) == t.rows + [l.c.value];
      t.rows := t.rows + [l.c.value];
    }
  }

  /** skip_version_string */
  method FindVersionEnd(h: bytes, p: nat) returns (i: nat)
    requires p <= |h|
    ensures p <= i <= |h| && h[i..] == SkipVersion(h[p..])
  {
    i := p;
    while !EndsPair(At(h, i))
      invariant p <= i <= |h| && SkipVersion(h[p..]) == SkipVersion(h[i..])
      decreases |h| - i
    {
      OneOn(h, i);
      i := i + 1;
    }
  }

  /** parse_cookie_header */
  method HeaderTurn(h: bytes, l: Locals, ghost g: Trace) returns (l': Locals)
    requires l.hdr <= |h| && l.at == AtHeader
    ensures l'.rv == l.rv && Stepped(h, l, g, l', g)
  {
    var k := FindNonSpace(h, l.hdr);
    if At(h, k) == DOLLAR && StartsNoCase(h[k..], Lit("$Version")) {
      l' := VersionTurn(h, l, k, g);
    } else {
      l' := l.(c := None, version := 0, hdr := k, at := AtPairs);
    }
  }

  /** A header that begins with $Version: the pairs begin behind the next ',' or ';'. */
  method VersionTurn(h: bytes, l: Locals, k: nat, ghost g: Trace) returns (l': Locals)
    requires l.hdr <= k <= |h| && l.at == AtHeader && h[k..] == SkipSpace(h[l.hdr..])
    requires At(h, k) == DOLLAR && StartsNoCase(h[k..], Lit("$Version"))
    ensures l'.rv == l.rv && Stepped(h, l, g, l', g)
  {
    var next := l.(c := None, version := 0);
    var v := FindVersionEnd(h, k);
    if At(h, v) == 0 {
      return next.(at := AtEnd, hdr := v);
    }
    OneOn(h, v);
    if h[v] == COMMA {
      return next.(hdr := v + 1);
    }
    return next.(version := 1, hdr := v + 1, at := AtPairs);
  }

  /** parse_cookie_error */
  method ErrorTurn(t: Brigades.Table<Cookie>, h: bytes, l: Locals, ghost g: Trace, ghost rows0: seq<Cookie>)
    returns (l': Locals, ghost g': Trace)
    requires l.hdr <= |h| && l.at == AtError && Follows(rows0, t.rows, l, g)
    modifies t
    ensures Follows(rows0, t.rows, l', g') && Stepped(h, l, g, l', g')
  {
    var ch := At(h, l.hdr);
    g' := g;
    if ch == 0 {
      return l.(at := AtEnd), g;
    }
    OneOn(h, l.hdr);
    if ch == COMMA || ch == SEMI {
      g' := AddCurrent(t, l, g, rows0);
      l' := l.(at := AtHeader, hdr := l.hdr + 1);
    } else {
      l' := l.(hdr := l.hdr + 1);
    }
  }

  /** Semicolons and blanks between pairs. */
  method FindPairStart(h: bytes, p: nat) returns (i: nat)
    requires p <= |h|
    ensures p <= i <= |h| && h[i..] == SkipSemis(h[p..])
  {
    i := p;
    while i < |h| && (h[i] == SEMI || IsSpace(h[i]))
      invariant p <= i <= |h| && SkipSemis(h[p..]) == SkipSemis(h[i..])
    {
      OneOn(h, i);
      i := i + 1;
    }
  }

  /** A pair behind a $, which stands in front of l.hdr: an attribute of the current cookie. */
  method AttrTurn(h: bytes, l: Locals, ghost g: Trace) returns (l': Locals, ghost g': Trace)
    requires l.hdr <= |h| && l.rv == g.j.rv
    ensures l.hdr <= l'.hdr <= |h| && g' == g.(j := g.j.(rv := l'.rv)) && l'.at != AtEnd
    ensures Outcome(h, l', g') == AttrPair(h[l.hdr..], Current(l, g), l.version, g.j)
  {
    g' := g;
    if l.c == None {
      l' := l.(rv := BadChar, at := AtError);
    } else {
      var p, stop := FindPair(h, l.hdr, true);
      if p.st != Success {
        l' := l.(rv := p.st, at := AtError, hdr := stop);
      } else {
        var a := CookieAttr(l.c.value, p.name, p.value);
        if a.st == NotImpl {
          l' := l.(rv := BadAttr, at := AtPairs, hdr := stop);
        } else if a.st != Success {
          l' := l.(rv := a.st, at := AtError, hdr := stop);
        } else {
          l' := l.(c := Some(a.c), rv := if l.version == 0 then Mismatch else l.rv, at := AtPairs, hdr := stop);
        }
      }
    }
    g' := g.(j := g.j.(rv := l'.rv));
  }

  /** A pair without a $: a new current cookie, the last one being in the jar. */
  method CookieTurn(h: bytes, l: Locals, ghost g: Trace) returns (l': Locals, ghost g': Trace)
    requires l.hdr <= |h| && l.rv == g.j.rv && l.c == None && !EndsPair(At(h, l.hdr))
    ensures l.hdr < l'.hdr <= |h| && g'.j.found == g.j.found && l'.rv == g'.j.rv && l'.at != AtEnd
    ensures
      var k := h[l.hdr..];
      var p := GetPair(k, false);
      Outcome(h, l', g') ==
        if p.st != Success then Resync(p.rest, None, g.j.(rv := p.st))
        else Pairs(p.rest, Some(Found(|k|, MakeCookie(p.name, p.value, l.version))), l.version, g.j.(seen := g.j.seen + [|k|]))
  {
    var p, stop := FindPair(h, l.hdr, false);
    if p.st != Success {
      l' := l.(rv := p.st, at := AtError, hdr := stop);
      g' := g.(j := g.j.(rv := p.st));
    } else {
      l' := l.(c := Some(MakeCookie(p.name, p.value, l.version)), at := AtPairs, hdr := stop);
      g' := Trace(|h| - l.hdr, g.j.(seen := g.j.seen + [|h| - l.hdr]));
    }
  }

  /** One turn of the loop over pairs. */
  method PairsTurn(t: Brigades.Table<Cookie>, h: bytes, l: Locals, ghost g: Trace, ghost rows0: seq<Cookie>)
    returns (l': Locals, ghost g': Trace)
    requires l.hdr <= |h| && l.at == AtPairs && Follows(rows0, t.rows, l, g)
    modifies t
    ensures Follows(rows0, t.rows, l', g') && Stepped(h, l, g, l', g')
  {
    var k := FindPairStart(h, l.hdr);
    var ch := At(h, k);
    g' := g;
    if ch == DOLLAR {
      OneOn(h, k);
      l', g' := AttrTurn(h, l.(hdr := k + 1), g);
    } else {
      g' := AddCurrent(t, l, g, rows0);
      if ch == 0 {
        return l.(at := AtEnd, hdr := k), g';
      }
      OneOn(h, k);
      if ch == COMMA {
        return l.(at := AtHeader, hdr := k + 1), g';
      }
      l', g' := CookieTurn(h, l.(c := None, hdr := k), g');
    }
  }

  function LabelRank(l: Label): nat { if l == AtHeader then 2 else if l == AtEnd then 0 else 1 }

  /** apreq_parse_cookie_header: status and cookies are those of the grammar. */
  method ParseCookieHeader(t: Brigades.Table<Cookie>, h: bytes) returns (rv: Status)
    modifies t
    ensures
      var r := Header(h, Empty);
      rv == r.rv && t.rows == old(t.rows) + CookieRoundTrip.Cookies(r.found)
  {
    var l := Locals(AtHeader, 0, None, 0, Success);
    ghost var g, rows0 := Trace(0, Empty), t.rows;
    assert h[0..] == h && rows0 + CookieRoundTrip.Cookies([]) == rows0;
    while l.at != AtEnd
      invariant l.hdr <= |h| && Follows(rows0, t.rows, l, g) && Outcome(h, l, g) == Header(h, Empty)
      decreases LabelRank(l.at) > 0, |h| - l.hdr, LabelRank(l.at)
    {
      if l.at == AtHeader {
        l := HeaderTurn(h, l, g);
      } else if l.at == AtPairs {
        l, g := PairsTurn(t, h, l, g, rows0);
      } else {
        l, g := ErrorTurn(t, h, l, g, rows0);
      }
    }
    rv := l.rv;
  }
}
