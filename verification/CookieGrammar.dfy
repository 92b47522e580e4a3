/** Cookie headers (library/cookie.c): what get_pair, apreq_cookie_attr and
    apreq_parse_cookie_header compute, on the rest of a NUL-terminated header. */
module CookieGrammar {
  import opened Bytes

  /** *hdr: the character a pointer into the header stands on. */
  function Head(s: bytes): byte { if s == [] then 0 else s[0] }

  /** The blanks scan_name and the bare values know: not \v and \f. */
  predicate IsLineBlank(c: byte) { c == SPACE || c == TAB || c == CR || c == LF }

  function SkipSpace(s: bytes): (r: bytes)
    ensures |r| <= |s| && !IsSpace(Head(r))
    ensures !IsSpace(Head(s)) ==> r == s
  {
    if s != [] && IsSpace(s[0]) then SkipSpace(s[1..]) else s
  }

  // ------------------------------------------------------------ get_pair

  /** Leading blanks and equal signs. */
  function SkipLead(s: bytes): (r: bytes)
    ensures |r| <= |s|
  {
    if s != [] && (IsSpace(s[0]) || s[0] == EQUALS) then SkipLead(s[1..]) else s
  }

  predicate EndsPair(c: byte) { c == 0 || c == SEMI || c == COMMA }

  datatype Name = Name(found: bool, name: bytes, rest: bytes)

  /** scan_name: the name up to a blank, the rest behind the '='. */
  function ScanName(s: bytes, name: bytes, isSet: bool): (r: Name)
    ensures |r.rest| <= |s|
    ensures !EndsPair(Head(s)) ==> |r.rest| < |s|
    decreases |s|
  {
    var c := Head(s);
    if EndsPair(c) then Name(false, name, s)
    else if c == EQUALS then Name(true, name, s[1..])
    else if isSet || IsLineBlank(c) then ScanName(s[1..], name, true)
    else ScanName(s[1..], name + [c], false)
  }

  datatype Value = Value(ok: bool, value: bytes, rest: bytes)

  function Then(head: bytes, v: Value): Value { v.(value := head + v.value) }

  /** A value in quotes, from behind the opening one: what is between, as it stands. */
  function ScanQuoted(s: bytes): (r: Value)
    ensures |r.rest| <= |s|
    decreases |s|
  {
    var c := Head(s);
    if c == 0 then Value(false, [], s)
    else if c == QUOTE then Value(true, [], s[1..])
    else if c == BACKSLASH && Head(s[1..]) != 0 then Then([c, s[1]], ScanQuoted(s[2..]))
    else Then([c], ScanQuoted(s[1..]))
  }

  predicate EndsBare(c: byte) { EndsPair(c) || IsLineBlank(c) }

  /** A value without quotes. */
  function ScanBare(s: bytes): (r: Value)
    ensures |r.rest| <= |s|
  {
    if EndsBare(Head(s)) then Value(true, [], s) else Then([s[0]], ScanBare(s[1..]))
  }

  /** Take the backslashes out. */
  function Unescape(s: bytes): bytes
    decreases |s|
  {
    if s == [] then []
    else if s[0] == BACKSLASH && |s| > 1 then [s[1]] + Unescape(s[2..])
    else [s[0]] + Unescape(s[1..])
  }

  datatype Pair = Pair(st: Status, name: bytes, value: bytes, rest: bytes)

  function ReadValue(s: bytes, unquote: bool): (r: Value)
    ensures |r.rest| <= |s|
  {
    if Head(s) == QUOTE then
      var q := ScanQuoted(s[1..]);
      if !q.ok then q else q.(value := if unquote then Unescape(q.value) else [QUOTE] + q.value + [QUOTE])
    else ScanBare(s)
  }

  function GetPair(s: bytes, unquote: bool): (r: Pair)
    ensures |r.rest| <= |s|
    ensures !EndsPair(Head(s)) ==> |r.rest| < |s|
    ensures r.st in {Success, NoToken, BadChar, BadSeq}
  {
    var n := ScanName(SkipLead(s), [], false);
    if !n.found then Pair(if n.name != [] then NoToken else BadChar, n.name, [], n.rest)
    else
      var v := ReadValue(SkipSpace(n.rest), unquote);
      if v.ok then Pair(Success, n.name, v.value, v.rest) else Pair(BadSeq, n.name, [], v.rest)
  }

  // ------------------------------------------------------------ cookies

  datatype Cookie = Cookie(name: bytes, value: bytes, path: Option<bytes>, domain: Option<bytes>, port: Option<bytes>,
                           comment: Option<bytes>, commentURL: Option<bytes>, expires: Option<bytes>,
                           version: nat, secure: bool, httponly: bool, tainted: bool)

  function MakeCookie(name: bytes, value: bytes, version: nat): Cookie {
    Cookie(name, value, None, None, None, None, None, None, version, false, false, true)
  }

  datatype Attribute = Attribute(st: Status, c: Cookie)

  predicate StartsNoCase(s: bytes, prefix: bytes) { |prefix| <= |s| && SameNoCase(s[..|prefix|], prefix) }

  /** The first digit of a version, in the two bits the cookie has for it. */
  function Version(val: bytes): Option<nat> {
    if val == [] then None
    else if IsDigit(val[0]) then Some((val[0] - 48) % 4)
    else Version(val[1..])
  }

  /** vlen > 0 && *val != '0' && strncasecmp("off", val, vlen) */
  predicate IsOn(val: bytes) {
    val != [] && val[0] != 48 && !(|val| <= 3 && SameNoCase(val, Lit("off")[..|val|]))
  }

  /** apreq_cookie_attr behind its - or $ */
  function SetAttr(c: Cookie, a: bytes, val: bytes): Attribute
    requires a != []
  {
    var k := Lower(a[0]);
    if k == 118 then
      if SameNoCase(a, Lit("value")) then Attribute(NotImpl, c)
      else match Version(val) case None => Attribute(BadSeq, c) case Some(n) => Attribute(Success, c.(version := n))
    else if k == 101 || k == 109 then Attribute(Success, c.(expires := Some(val)))
    else if k == 100 then Attribute(Success, c.(domain := Some(val)))
    else if k == 112 && SameNoCase(a, Lit("port")) then Attribute(Success, c.(port := Some(val)))
    else if k == 112 && SameNoCase(a, Lit("path")) then Attribute(Success, c.(path := Some(val)))
    else if k == 99 && StartsNoCase(a, Lit("commentURL")) then Attribute(Success, c.(commentURL := Some(val)))
    else if k == 99 && StartsNoCase(a, Lit("comment")) then Attribute(Success, c.(comment := Some(val)))
    else if k == 115 then Attribute(Success, c.(secure := IsOn(val)))
    else if k == 104 then Attribute(Success, c.(httponly := IsOn(val)))
    else Attribute(NotImpl, c)
  }

  function CookieAttr(c: Cookie, attr: bytes, val: bytes): (r: Attribute)
    ensures r.st in {Success, NotImpl, BadSeq, BadArg}
    ensures r.st != Success ==> r.c == c
    ensures r.c.name == c.name && r.c.value == c.value
  {
    if |attr| < 2 then Attribute(BadArg, c)
    else SetAttr(c, if attr[0] == DASH || attr[0] == DOLLAR then attr[1..] else attr, val)
  }

  // ------------------------------------------------------------ the header

  /** A cookie, and how much of the header was left where its pair starts. */
  datatype Found = Found(left: nat, cookie: Cookie)

  /** The status so far, the jar, and every pair that was read as a cookie. */
  datatype Jar = Jar(rv: Status, found: seq<Found>, seen: seq<nat>)

  function Add(j: Jar, c: Option<Found>): Jar {
    match c case Some(f) => j.(found := j.found + [f]) case None => j
  }

  predicate IsVersion(s: bytes) { Head(s) == DOLLAR && StartsNoCase(s, Lit("$Version")) }

  /** skip_version_string: up to the first comma, semicolon or the end. */
  function SkipVersion(s: bytes): (r: bytes)
    ensures |r| <= |s| && EndsPair(Head(r))
  {
    if EndsPair(Head(s)) then s else SkipVersion(s[1..])
  }

  function SkipSemis(s: bytes): (r: bytes)
    ensures |r| <= |s| && Head(r) != SEMI && !IsSpace(Head(r))
  {
    if s != [] && (s[0] == SEMI || IsSpace(s[0])) then SkipSemis(s[1..]) else s
  }

  /** parse_cookie_header: no current cookie, and a version only if the header names one. */
  function Header(s: bytes, j: Jar): Jar
    decreases |s|, 2
  {
    var k := SkipSpace(s);
    if !IsVersion(k) then Pairs(k, None, 0, j)
    else
      var v := SkipVersion(k);
      if Head(v) == 0 then j
      else if v[0] == COMMA then Header(v[1..], j)
      else Pairs(v[1..], None, 1, j)
  }

  /** The loop over pairs, c being the current cookie. */
  function Pairs(s: bytes, c: Option<Found>, version: nat, j: Jar): Jar
    decreases |s|, 1
  {
    var k := SkipSemis(s);
    if Head(k) == 0 then Add(j, c)
    else if k[0] == COMMA then Header(k[1..], Add(j, c))
    else if k[0] == DOLLAR then AttrPair(k[1..], c, version, j)
    else
      var p := GetPair(k, false);
      if p.st != Success then Resync(p.rest, None, Add(j, c).(rv := p.st))
      else Pairs(p.rest, Some(Found(|k|, MakeCookie(p.name, p.value, version))), version,
                 Add(j, c).(seen := j.seen + [|k|]))
  }

  /** A pair behind a $ */
  function AttrPair(s: bytes, c: Option<Found>, version: nat, j: Jar): Jar
    decreases |s|, 2
  {
    match c
    case None => Resync(s, None, j.(rv := BadChar))
    case Some(f) =>
      var p := GetPair(s, true);
      if p.st != Success then Resync(p.rest, c, j.(rv := p.st))
      else
        var a := CookieAttr(f.cookie, p.name, p.value);
        if a.st == NotImpl then Pairs(p.rest, c, version, j.(rv := BadAttr))
        else if a.st != Success then Resync(p.rest, c, j.(rv := a.st))
        else Pairs(p.rest, Some(f.(cookie := a.c)), version, if version == 0 then j.(rv := Mismatch) else j)
  }

  /** parse_cookie_error: skip to the next comma or semicolon and start over there. */
  function Resync(s: bytes, c: Option<Found>, j: Jar): Jar
    decreases |s|, 0
  {
    if Head(s) == 0 then j
    else if s[0] == COMMA || s[0] == SEMI then Header(s[1..], Add(j, c))
    else Resync(s[1..], c, j)
  }

  const Empty := Jar(Success, [], [])
}
