/** Printed cookie headers, in the syntax of section 4.3.4 of RFC 2109, and the quoted
    values get_pair takes apart. */
module CookieRoundTrip {
  import opened Bytes
  import opened CookieGrammar
  import opened Quoting

  // ------------------------------------------------------------ one pair

  /** A character between quotes, as it is or behind a backslash. */
  datatype Char = Plain(c: byte) | Slashed(c: byte)

  /** A value as it is written: bare, or a quoted string. */
  datatype Written = Bare(v: bytes) | InQuotes(q: seq<Char>)

  function CharText(x: Char): bytes {
    match x case Plain(c) => [c] case Slashed(c) => [BACKSLASH, c]
  }

  function QuotedText(q: seq<Char>): bytes {
    if q == [] then [] else CharText(q[0]) + QuotedText(q[1..])
  }

  function QuotedValue(q: seq<Char>): bytes {
    if q == [] then [] else [q[0].c] + QuotedValue(q[1..])
  }

  function TextOf(w: Written): bytes {
    match w case Bare(v) => v case InQuotes(q) => [QUOTE] + QuotedText(q) + [QUOTE]
  }

  function ValueOf(w: Written): bytes {
    match w case Bare(v) => v case InQuotes(q) => QuotedValue(q)
  }

  predicate CharOk(x: Char) { x.c != 0 && (x.Plain? ==> x.c != QUOTE && x.c != BACKSLASH) }

  predicate QuotedOk(q: seq<Char>) { forall i :: 0 <= i < |q| ==> CharOk(q[i]) }

  predicate WrittenOk(w: Written) {
    match w
    case Bare(v) =>
      && (forall i :: 0 <= i < |v| ==> !EndsBare(v[i]))
      && (v != [] ==> v[0] != QUOTE && !IsSpace(v[0]))
    case InQuotes(q) => QuotedOk(q)
  }

  /** The value a cookie gets keeps its quotes, that of an attribute loses them. */
  function Meaning(w: Written, unquote: bool): bytes { if unquote then ValueOf(w) else TextOf(w) }

  predicate NameOk(n: bytes) {
    && n != [] && !IsSpace(n[0]) && n[0] != EQUALS
    && forall i :: 0 <= i < |n| ==> !EndsPair(n[i]) && n[i] != EQUALS && !IsLineBlank(n[i])
  }

  predicate Follows(rest: bytes) { rest == [] || rest[0] == SEMI || rest[0] == COMMA }

  lemma {:induction false} NameReads(n: bytes, acc: bytes, rest: bytes)
    requires forall i :: 0 <= i < |n| ==> !EndsPair(n[i]) && n[i] != EQUALS && !IsLineBlank(n[i])
    ensures ScanName(n + ([EQUALS] + rest), acc, false) == Name(true, acc + n, rest)
    decreases |n|
  {
    var s := n + ([EQUALS] + rest);
    if n == [] {
      assert s == [EQUALS] + rest && s[1..] == rest && acc + n == acc;
    } else {
      NameReads(n[1..], acc + [n[0]], rest);
      assert s[1..] == n[1..] + ([EQUALS] + rest);
      assert acc + [n[0]] + n[1..] == acc + n;
    }
  }

  lemma {:induction false} BareReads(v: bytes, rest: bytes)
    requires (forall i :: 0 <= i < |v| ==> !EndsBare(v[i])) && EndsBare(Head(rest))
    ensures ScanBare(v + rest) == Value(true, v, rest)
    decreases |v|
  {
    if v == [] {
      assert v + rest == rest;
    } else {
      BareReads(v[1..], rest);
      assert (v + rest)[1..] == v[1..] + rest;
      assert [v[0]] + v[1..] == v;
    }
  }

  /** One character in front of more. */
  lemma CharReads(x: Char, more: bytes)
    requires CharOk(x) && ScanQuoted(more).ok
    ensures
      var q := ScanQuoted(more);
      ScanQuoted(CharText(x) + more) == Value(true, CharText(x) + q.value, q.rest)
  {
    var t := CharText(x) + more;
    match x
    case Plain(c) => assert t[1..] == more;
    case Slashed(c) => assert t[2..] == more && t[1..][0] == c && Head(t[1..]) == c;
  }

  lemma CharUnescapes(x: Char, more: bytes)
    requires CharOk(x)
    ensures Unescape(CharText(x) + more) == [x.c] + Unescape(more)
  {
    var t := CharText(x) + more;
    match x
    case Plain(c) => assert t[1..] == more;
    case Slashed(c) => assert t[2..] == more;
  }

  lemma {:induction false} QuotedReads(q: seq<Char>, rest: bytes)
    requires QuotedOk(q)
    ensures ScanQuoted(QuotedText(q) + ([QUOTE] + rest)) == Value(true, QuotedText(q), rest)
    ensures Unescape(QuotedText(q)) == QuotedValue(q)
    decreases |q|
  {
    var tail := [QUOTE] + rest;
    if q == [] {
      assert QuotedText(q) + tail == tail && tail[1..] == rest;
    } else {
      QuotedReads(q[1..], rest);
      var x, more := CharText(q[0]), QuotedText(q[1..]);
      assert x + more + tail == x + (more + tail);
      CharReads(q[0], more + tail);
      CharUnescapes(q[0], more);
    }
  }

  lemma BareValueReads(v: bytes, rest: bytes, unquote: bool)
    requires WrittenOk(Bare(v)) && Follows(rest)
    ensures !IsSpace(Head(v + rest)) && ReadValue(v + rest, unquote) == Value(true, v, rest)
  {
    BareReads(v, rest);
    if v == [] {
      assert v + rest == rest;
    } else {
      assert Head(v + rest) == v[0];
    }
  }

  lemma QuotedValueReads(q: seq<Char>, rest: bytes, unquote: bool)
    requires QuotedOk(q)
    ensures
      var w := InQuotes(q);
      var s := TextOf(w) + rest;
      SkipSpace(s) == s && ReadValue(s, unquote) == Value(true, Meaning(w, unquote), rest)
  {
    var t := QuotedText(q) + ([QUOTE] + rest);
    QuotedReads(q, rest);
    assert TextOf(InQuotes(q)) + rest == [QUOTE] + t;
    ScannedIsValue(t, QuotedText(q), rest, unquote);
  }

  lemma ScannedIsValue(t: bytes, body: bytes, rest: bytes, unquote: bool)
    requires ScanQuoted(t) == Value(true, body, rest)
    ensures
      var s := [QUOTE] + t;
      SkipSpace(s) == s && ReadValue(s, unquote) == Value(true, if unquote then Unescape(body) else [QUOTE] + body + [QUOTE], rest)
  {
    assert ([QUOTE] + t)[1..] == t;
  }

  lemma ValueReads(w: Written, rest: bytes, unquote: bool)
    requires WrittenOk(w) && Follows(rest)
    ensures SkipSpace(TextOf(w) + rest) == TextOf(w) + rest
    ensures ReadValue(TextOf(w) + rest, unquote) == Value(true, Meaning(w, unquote), rest)
  {
    match w
    case Bare(v) => BareValueReads(v, rest, unquote);
    case InQuotes(q) => QuotedValueReads(q, rest, unquote);
  }

  /** name=value is read as that name and value. */
  lemma PairReads(n: bytes, w: Written, rest: bytes, unquote: bool)
    requires NameOk(n) && WrittenOk(w) && Follows(rest)
    ensures GetPair(n + ([EQUALS] + (TextOf(w) + rest)), unquote) == Pair(Success, n, Meaning(w, unquote), rest)
  {
    NameReads(n, [], TextOf(w) + rest);
    ValueReads(w, rest, unquote);
    assert [] + n == n;
  }

  // ------------------------------------------------------------ quoting and get_pair

  /** What a byte is after quoting and unquoting: a NUL has become a digit. */
  function Restored(s: bytes): bytes {
    if s == [] then [] else [if s[0] == 0 then ZERO_DIGIT else s[0]] + Restored(s[1..])
  }

  /** What apreq_quote writes, as a quoted string. */
  function Units(s: bytes): seq<Char> {
    if s == [] then []
    else
      var x := if s[0] == 0 then Slashed(ZERO_DIGIT)
               else if s[0] == BACKSLASH || s[0] == QUOTE then Slashed(s[0])
               else Plain(s[0]);
      [x] + Units(s[1..])
  }

  lemma {:induction false} EscapeIsQuoted(s: bytes)
    ensures QuotedOk(Units(s)) && QuotedText(Units(s)) == EscapeAll(s) && QuotedValue(Units(s)) == Restored(s)
    decreases |s|
  {
    if s != [] {
      EscapeIsQuoted(s[1..]);
      assert Units(s)[1..] == Units(s[1..]);
    }
  }

  lemma {:induction false} RestoredExactly(s: bytes)
    ensures Restored(s) == s <==> 0 !in s
    decreases |s|
  {
    if s != [] {
      RestoredExactly(s[1..]);
      assert s == [s[0]] + s[1..];
      assert Restored(s)[0] == s[0] <==> s[0] != 0;
      assert Restored(s)[1..] == Restored(s[1..]);
    }
  }

  /** get_pair takes apreq_quote's result apart again, exactly if there is no NUL in it. */
  lemma QuotedPairReads(n: bytes, v: bytes, rest: bytes)
    requires NameOk(n) && v != []
    ensures
      var p := GetPair(n + ([EQUALS] + (Quote(v) + rest)), true);
      p == Pair(Success, n, Restored(v), rest) && (p.value == v <==> 0 !in v)
  {
    var s := Quote(v) + rest;
    NameReads(n, [], s);
    assert [] + n == n;
    EscapeIsQuoted(v);
    QuotedValueReads(Units(v), rest, true);
    RestoredExactly(v);
  }

  // ------------------------------------------------------------ printed headers

  datatype AttrName = Path | Domain | Port | Comment | CommentURL

  datatype Attr = Attr(name: AttrName, value: Written)

  /** A cookie, and whether a comma or a semicolon stands between it and the next. */
  datatype Item = Item(name: bytes, value: Written, attrs: seq<Attr>, comma: bool)

  /** A leading $Version, and whether a comma or a semicolon follows it. */
  datatype Lead = NoVersion | Versioned(value: Written, comma: bool)

  function AttrKey(a: AttrName): bytes {
    match a
    case Path => Lit("Path")
    case Domain => Lit("Domain")
    case Port => Lit("Port")
    case Comment => Lit("Comment")
    case CommentURL => Lit("CommentURL")
  }

  function Glue(comma: bool): bytes { [if comma then COMMA else SEMI, SPACE] }

  /** ; $Path=value ... */
  function AttrsText(attrs: seq<Attr>): bytes {
    if attrs == [] then []
    else Glue(false) + ([DOLLAR] + (AttrKey(attrs[0].name) + ([EQUALS] + (TextOf(attrs[0].value) + AttrsText(attrs[1..])))))
  }

  function ItemsText(items: seq<Item>): bytes {
    if items == [] then []
    else
      items[0].name + ([EQUALS] + (TextOf(items[0].value)
      + (AttrsText(items[0].attrs) + if |items| == 1 then [] else Glue(items[0].comma) + ItemsText(items[1..]))))
  }

  /** An optional leading $Version, then the cookies. */
  function HeaderText(lead: Lead, items: seq<Item>): bytes {
    match lead
    case NoVersion => ItemsText(items)
    case Versioned(w, comma) => Lit("$Version=") + (TextOf(w) + (Glue(comma) + ItemsText(items)))
  }

  function WithAttr(c: Cookie, a: Attr): Cookie {
    match a.name
    case Path => c.(path := Some(ValueOf(a.value)))
    case Domain => c.(domain := Some(ValueOf(a.value)))
    case Port => c.(port := Some(ValueOf(a.value)))
    case Comment => c.(comment := Some(ValueOf(a.value)))
    case CommentURL => c.(commentURL := Some(ValueOf(a.value)))
  }

  function WithAttrs(c: Cookie, attrs: seq<Attr>): Cookie
    decreases |attrs|
  {
    if attrs == [] then c else WithAttrs(WithAttr(c, attrs[0]), attrs[1..])
  }

  function CookieOf(item: Item, version: nat): Cookie {
    WithAttrs(MakeCookie(item.name, TextOf(item.value), version), item.attrs)
  }

  /** The version in force behind a separator: a comma starts a header of its own. */
  function VersionBehind(comma: bool, version: nat): nat { if comma then 0 else version }

  function CookiesOf(items: seq<Item>, version: nat): seq<Cookie> {
    if items == [] then []
    else [CookieOf(items[0], version)] + CookiesOf(items[1..], VersionBehind(items[0].comma, version))
  }

  /** An attribute where no version is in force. */
  function RvWith(attrs: seq<Attr>, version: nat, rv: Status): Status {
    if version == 0 && attrs != [] then Mismatch else rv
  }

  function Verdict(items: seq<Item>, version: nat, rv: Status): Status
    decreases |items|
  {
    if items == [] then rv
    else Verdict(items[1..], VersionBehind(items[0].comma, version), RvWith(items[0].attrs, version, rv))
  }

  predicate AttrsOk(attrs: seq<Attr>) { forall i :: 0 <= i < |attrs| ==> WrittenOk(attrs[i].value) }

  /** Legal names and values. */
  predicate ItemOk(item: Item) {
    NameOk(item.name) && item.name[0] != DOLLAR && WrittenOk(item.value) && AttrsOk(item.attrs)
  }

  predicate ItemsOk(items: seq<Item>) { forall i :: 0 <= i < |items| ==> ItemOk(items[i]) }

  // ------------------------------------------------------------ the parse of a printed header

  lemma KeyIsName(a: AttrName)
    ensures NameOk(AttrKey(a)) && |AttrKey(a)| >= 2 && AttrKey(a)[0] != DASH && AttrKey(a)[0] != DOLLAR
  {
  }

  /** Each attribute sets its own field, and no other. */
  lemma AttrSets(c: Cookie, a: Attr)
    ensures CookieAttr(c, AttrKey(a.name), ValueOf(a.value)) == Attribute(Success, WithAttr(c, a))
  {
    KeyIsName(a.name);
    var k := AttrKey(a.name);
    match a.name
    case Path => PathOrPort();
    case Port => PathOrPort();
    case Domain =>
    case Comment => CommentOrUrl();
    case CommentURL => CommentOrUrl();
  }

  /** The other attributes. */
  datatype Setting = Expires | MaxAge | Secure | HttpOnly | Version

  function SettingKey(a: Setting): bytes {
    match a
    case Expires => Lit("Expires")
    case MaxAge => Lit("Max-Age")
    case Secure => Lit("Secure")
    case HttpOnly => Lit("HttpOnly")
    case Version => Lit("Version")
  }

  /** No value, one that begins with 0, and a beginning of "off" switch an attribute off. */
  predicate Off(v: bytes) {
    v == [] || v[0] == 48 || SameNoCase(v, Lit("o")) || SameNoCase(v, Lit("of")) || SameNoCase(v, Lit("off"))
  }

  lemma OffIs(v: bytes)
    ensures IsOn(v) <==> !Off(v)
  {
    var off := Lit("off");
    assert off[..1] == Lit("o") && off[..2] == Lit("of") && off[..3] == off;
  }

  /** The first digit decides, in two bits; without a digit the version is an error. */
  lemma {:induction false} VersionIs(x: bytes, rest: bytes)
    requires forall i :: 0 <= i < |x| ==> !IsDigit(x[i])
    requires rest == [] || IsDigit(rest[0])
    ensures CookieGrammar.Version(x + rest) == if rest == [] then None else Some((rest[0] - 48) % 4)
    decreases |x|
  {
    if x == [] {
      assert x + rest == rest;
    } else {
      assert (x + rest)[0] == x[0] && (x + rest)[1..] == x[1..] + rest;
      VersionIs(x[1..], rest);
    }
  }

  /** Each of them sets its own field, and no other. */
  lemma SettingSets(c: Cookie, a: Setting, v: bytes)
    ensures CookieAttr(c, SettingKey(a), v) ==
            match a
            case Expires => Attribute(Success, c.(expires := Some(v)))
            case MaxAge => Attribute(Success, c.(expires := Some(v)))
            case Secure => Attribute(Success, c.(secure := !Off(v)))
            case HttpOnly => Attribute(Success, c.(httponly := !Off(v)))
            case Version =>
              match CookieGrammar.Version(v) case None => Attribute(BadSeq, c) case Some(n) => Attribute(Success, c.(version := n))
  {
    OffIs(v);
    assert |Lit("Version")| != |Lit("value")|;
  }

  /** Domain, Expires, HttpOnly, Max-Age, Secure and Version go by their first letter, the
      others by their name. */
  predicate IsKnown(a: bytes) {
    || (a != [] && Lower(a[0]) in Lit("dehmsv"))
    || SameNoCase(a, Lit("path")) || SameNoCase(a, Lit("port")) || StartsNoCase(a, Lit("comment"))
  }

  /** Any other attribute is none, and so is Value; a dash or dollar in front makes no
      difference. */
  lemma NoSetting(c: Cookie, a: bytes, v: bytes)
    requires |a| >= 2 && a[0] != DASH && a[0] != DOLLAR
    ensures SameNoCase(a, Lit("value")) || !IsKnown(a) ==> CookieAttr(c, a, v) == Attribute(NotImpl, c)
    ensures CookieAttr(c, [DASH] + a, v) == CookieAttr(c, [DOLLAR] + a, v) == CookieAttr(c, a, v)
  {
    assert ([DASH] + a)[1..] == a && ([DOLLAR] + a)[1..] == a;
    var l := Lit("dehmsv");
    assert l == [100, 101, 104, 109, 115, 118];
    if SameNoCase(a, Lit("value")) { assert Lower(a[0]) == Lower(Lit("value")[0]); }
    if StartsNoCase(a, Lit("commentURL")) { CommentBegins(a); }
  }

  lemma CommentBegins(a: bytes)
    requires StartsNoCase(a, Lit("commentURL"))
    ensures StartsNoCase(a, Lit("comment"))
  {
    var u, k := Lit("commentURL"), Lit("comment");
    forall i: nat | i < |k|
      ensures Lower(a[..|k|][i]) == Lower(k[i])
    {
      assert a[..|u|][i] == a[i] && u[i] == k[i];
    }
  }

  lemma PathOrPort()
    ensures SameNoCase(Lit("Path"), Lit("path")) && SameNoCase(Lit("Port"), Lit("port"))
    ensures !SameNoCase(Lit("Path"), Lit("port"))
  {
    assert Lower(Lit("Path")[1]) != Lower(Lit("port")[1]);
  }

  lemma CommentOrUrl()
    ensures StartsNoCase(Lit("Comment"), Lit("comment")) && !StartsNoCase(Lit("Comment"), Lit("commentURL"))
    ensures StartsNoCase(Lit("CommentURL"), Lit("commentURL"))
  {
    var c, u := Lit("Comment"), Lit("CommentURL");
    assert c[..7] == c && u[..10] == u && |c| < |Lit("commentURL")|;
  }

  lemma SameNoCaseSwaps(a: bytes, b: bytes, c: bytes)
    requires SameNoCase(a, b)
    ensures SameNoCase(a, c) == SameNoCase(b, c)
    ensures StartsNoCase(a, c) == StartsNoCase(b, c)
  {
    if |c| <= |a| {
      assert forall i :: 0 <= i < |c| ==> a[..|c|][i] == a[i] && b[..|c|][i] == b[i];
    }
  }

  /** Attribute names are matched without regard to case. */
  lemma AttrIgnoresCase(c: Cookie, a: bytes, b: bytes, val: bytes)
    requires SameNoCase(a, b)
    ensures CookieAttr(c, a, val) == CookieAttr(c, b, val)
  {
    if |a| >= 2 {
      var sign := a[0] == DASH || a[0] == DOLLAR;
      assert Lower(a[0]) == Lower(b[0]);
      assert sign == (b[0] == DASH || b[0] == DOLLAR);
      SetAttrIgnoresCase(c, if sign then a[1..] else a, if sign then b[1..] else b, val);
    }
  }

  lemma SetAttrIgnoresCase(c: Cookie, a: bytes, b: bytes, val: bytes)
    requires a != [] && SameNoCase(a, b)
    ensures SetAttr(c, a, val) == SetAttr(c, b, val)
  {
    assert Lower(a[0]) == Lower(b[0]);
    SameNoCaseSwaps(a, b, Lit("value"));
    SameNoCaseSwaps(a, b, Lit("port"));
    SameNoCaseSwaps(a, b, Lit("path"));
    SameNoCaseSwaps(a, b, Lit("commentURL"));
    SameNoCaseSwaps(a, b, Lit("comment"));
  }

  lemma GlueSkips(rest: bytes)
    requires rest != [] && Head(rest) != SEMI && !IsSpace(Head(rest))
    ensures SkipSemis(Glue(false) + rest) == rest
  {
    var s := Glue(false) + rest;
    assert s[1..] == [SPACE] + rest && s[1..][1..] == rest;
    assert SkipSemis(rest) == rest;
    assert SkipSemis([SPACE] + rest) == SkipSemis(rest);
  }

  /** Behind a comma a header of its own begins. */
  lemma GlueRestarts(rest: bytes, c: Option<Found>, version: nat, j: Jar)
    requires rest != [] && Head(rest) != DOLLAR && !IsSpace(Head(rest))
    ensures Pairs(Glue(true) + rest, c, version, j) == Pairs(rest, None, 0, Add(j, c))
  {
    var s := Glue(true) + rest;
    assert SkipSemis(s) == s;
    assert s[1..] == [SPACE] + rest;
    SpaceThenPairs(rest, Add(j, c));
  }

  lemma SpaceThenPairs(rest: bytes, j: Jar)
    requires rest != [] && Head(rest) != DOLLAR && !IsSpace(Head(rest))
    ensures Header([SPACE] + rest, j) == Pairs(rest, None, 0, j)
  {
    var t := [SPACE] + rest;
    assert t[1..] == rest;
    assert SkipSpace(t) == SkipSpace(rest) == rest;
  }

  /** One printed attribute of the current cookie. */
  lemma AttrParses(a: Attr, rest: bytes, f: Found, version: nat, j: Jar)
    requires WrittenOk(a.value) && Follows(rest)
    ensures
      var text := Glue(false) + ([DOLLAR] + (AttrKey(a.name) + ([EQUALS] + (TextOf(a.value) + rest))));
      Pairs(text, Some(f), version, j)
      == Pairs(rest, Some(f.(cookie := WithAttr(f.cookie, a))), version, if version == 0 then j.(rv := Mismatch) else j)
  {
    var pair := AttrKey(a.name) + ([EQUALS] + (TextOf(a.value) + rest));
    var text := [DOLLAR] + pair;
    GlueSkips(text);
    assert text[1..] == pair;
    KeyIsName(a.name);
    AttrSets(f.cookie, a);
    PairReads(AttrKey(a.name), a.value, rest, true);
  }

  lemma AttrsFollow(attrs: seq<Attr>, rest: bytes)
    requires Follows(rest)
    ensures Follows(AttrsText(attrs) + rest)
  {
    if attrs == [] { assert AttrsText(attrs) + rest == rest; }
  }

  lemma {:induction false} AttrsParse(attrs: seq<Attr>, rest: bytes, f: Found, version: nat, j: Jar)
    requires AttrsOk(attrs) && Follows(rest)
    ensures Pairs(AttrsText(attrs) + rest, Some(f), version, j)
         == Pairs(rest, Some(f.(cookie := WithAttrs(f.cookie, attrs))), version, j.(rv := RvWith(attrs, version, j.rv)))
    decreases |attrs|
  {
    if attrs == [] {
      assert AttrsText(attrs) + rest == rest;
    } else {
      var a, more := attrs[0], AttrsText(attrs[1..]) + rest;
      AttrsFollow(attrs[1..], rest);
      AttrParses(a, more, f, version, j);
      AttrsParse(attrs[1..], rest, f.(cookie := WithAttr(f.cookie, a)), version, if version == 0 then j.(rv := Mismatch) else j);
      AttrTextSplits(attrs, rest);
    }
  }

  lemma AttrTextSplits(attrs: seq<Attr>, rest: bytes)
    requires attrs != []
    ensures AttrsText(attrs) + rest
         == Glue(false) + ([DOLLAR] + (AttrKey(attrs[0].name) + ([EQUALS] + (TextOf(attrs[0].value) + (AttrsText(attrs[1..]) + rest)))))
  {
    AttrTextJoins(Glue(false), AttrKey(attrs[0].name), TextOf(attrs[0].value), AttrsText(attrs[1..]), rest);
  }

  lemma AttrTextJoins(g: bytes, k: bytes, v: bytes, m: bytes, rest: bytes)
    ensures (g + ([DOLLAR] + (k + ([EQUALS] + (v + m))))) + rest == g + ([DOLLAR] + (k + ([EQUALS] + (v + (m + rest)))))
  {
    Assoc(v, m, rest);
    Assoc([EQUALS], v + m, rest);
    Assoc(k, [EQUALS] + (v + m), rest);
    Assoc([DOLLAR], k + ([EQUALS] + (v + m)), rest);
    Assoc(g, [DOLLAR] + (k + ([EQUALS] + (v + m))), rest);
  }

  /** The cookies of a jar. */
  function Cookies(fs: seq<Found>): (cs: seq<Cookie>)
    ensures |cs| == |fs| && forall i :: 0 <= i < |fs| ==> cs[i] == fs[i].cookie
  {
    seq(|fs|, i requires 0 <= i < |fs| => fs[i].cookie)
  }

  /** A cookie's pair, with the cookies in front of it in the jar. */
  lemma ItemParses(item: Item, rest: bytes, c: Option<Found>, version: nat, j: Jar) returns (f: Found, j': Jar)
    requires ItemOk(item) && Follows(rest)
    ensures
      var text := item.name + ([EQUALS] + (TextOf(item.value) + (AttrsText(item.attrs) + rest)));
      Pairs(text, c, version, j) == Pairs(rest, Some(f), version, j')
    ensures f.cookie == CookieOf(item, version) && j'.rv == RvWith(item.attrs, version, j.rv)
    ensures j'.found == Add(j, c).found
  {
    var more := AttrsText(item.attrs) + rest;
    var text := item.name + ([EQUALS] + (TextOf(item.value) + more));
    AttrsFollow(item.attrs, rest);
    PairReads(item.name, item.value, more, false);
    var k := Found(|text|, MakeCookie(item.name, TextOf(item.value), version));
    var j1 := Add(j, c).(seen := j.seen + [|text|]);
    NamedPair(text, item.name, TextOf(item.value), more, c, version, j);
    AttrsParse(item.attrs, rest, k, version, j1);
    j' := j1.(rv := RvWith(item.attrs, version, j1.rv));
    f := k.(cookie := WithAttrs(k.cookie, item.attrs));
  }

  lemma NamedPair(text: bytes, n: bytes, v: bytes, more: bytes, c: Option<Found>, version: nat, j: Jar)
    requires NameOk(n) && n[0] != DOLLAR && n <= text && GetPair(text, false) == Pair(Success, n, v, more)
    ensures Pairs(text, c, version, j)
         == Pairs(more, Some(Found(|text|, MakeCookie(n, v, version))), version, Add(j, c).(seen := j.seen + [|text|]))
  {
    assert text[0] == n[0];
    assert SkipSemis(text) == text;
  }

  function Behind(comma: bool, items: seq<Item>): bytes { if items == [] then [] else Glue(comma) + ItemsText(items) }

  lemma ItemsStart(items: seq<Item>)
    requires items != [] && ItemsOk(items)
    ensures ItemsText(items) != [] && Head(ItemsText(items)) == items[0].name[0] && NameOk(items[0].name)
    ensures Head(ItemsText(items)) != DOLLAR
  {
    assert ItemOk(items[0]);
  }

  /** What the parse of a printed list makes of the jar. */
  ghost predicate Parsed(r: Jar, before: seq<Found>, rv: Status, items: seq<Item>, version: nat) {
    r.rv == Verdict(items, version, rv) && Cookies(r.found) == Cookies(before) + CookiesOf(items, version)
  }

  /** The cookies of a printed list follow those already read. */
  lemma {:induction false} ItemsParse(items: seq<Item>, comma: bool, c: Option<Found>, version: nat, j: Jar)
    requires ItemsOk(items)
    ensures Parsed(Pairs(Behind(comma, items), c, version, j), Add(j, c).found, j.rv, items, VersionBehind(comma, version))
    decreases |items|
  {
    if items == [] {
      assert SkipSemis([]) == [];
      assert Cookies(Add(j, c).found) + [] == Cookies(Add(j, c).found);
    } else {
      var text := ItemsText(items);
      ItemsStart(items);
      if comma {
        ItemsParseMore(items, None, 0, Add(j, c));
        GlueRestarts(text, c, version, j);
      } else {
        ItemsParseMore(items, c, version, j);
        GlueSkips(text);
        PairsSkip(Glue(false) + text, text, c, version, j);
      }
    }
  }

  lemma PairsSkip(s: bytes, t: bytes, c: Option<Found>, version: nat, j: Jar)
    requires SkipSemis(s) == t && SkipSemis(t) == t
    ensures Pairs(s, c, version, j) == Pairs(t, c, version, j)
  {
  }

  lemma {:induction false} ItemsParseMore(items: seq<Item>, c: Option<Found>, version: nat, j: Jar)
    requires items != [] && ItemsOk(items)
    ensures Parsed(Pairs(ItemsText(items), c, version, j), Add(j, c).found, j.rv, items, version)
    decreases |items|, 0
  {
    var comma := items[0].comma;
    var rest := Behind(comma, items[1..]);
    var f, j' := ItemParses(items[0], rest, c, version, j);
    ItemsParse(items[1..], comma, Some(f), version, j');
    ItemsJoin(Add(j, c).found, f, Add(j', Some(f)).found, items, version);
  }

  lemma CookiesSnoc(before: seq<Found>, f: Found)
    ensures Cookies(before + [f]) == Cookies(before) + [f.cookie]
  {
    var with := before + [f];
    forall i | 0 <= i < |with| ensures Cookies(with)[i] == (Cookies(before) + [f.cookie])[i] {
    }
  }

  lemma Shift(a: seq<Cookie>, c: Cookie, b: seq<Cookie>)
    ensures (a + [c]) + b == a + ([c] + b)
  {
  }

  lemma ItemsJoin(before: seq<Found>, f: Found, with: seq<Found>, items: seq<Item>, version: nat)
    requires items != [] && with == before + [f] && f.cookie == CookieOf(items[0], version)
    ensures Cookies(with) + CookiesOf(items[1..], VersionBehind(items[0].comma, version))
         == Cookies(before) + CookiesOf(items, version)
  {
    CookiesSnoc(before, f);
    Shift(Cookies(before), f.cookie, CookiesOf(items[1..], VersionBehind(items[0].comma, version)));
  }

  /** No comma, semicolon or NUL. */
  predicate Unseparated(s: bytes) { forall i :: 0 <= i < |s| ==> !EndsPair(s[i]) }

  lemma {:induction false} VersionSkips(s: bytes, rest: bytes)
    requires Unseparated(s) && rest != [] && EndsPair(rest[0])
    ensures SkipVersion(s + rest) == rest
    decreases |s|
  {
    var t := s + rest;
    if s == [] {
      assert t == rest;
    } else {
      VersionSkips(s[1..], rest);
      assert t[1..] == s[1..] + rest;
    }
  }

  /** Behind a $Version with a semicolon the pairs have version 1, and behind one with a
      comma another header begins. */
  lemma VersionLeads(w: Written, comma: bool, rest: bytes, j: Jar)
    requires Unseparated(TextOf(w))
    ensures Header(Lit("$Version=") + (TextOf(w) + (Glue(comma) + rest)), j)
         == if comma then Header([SPACE] + rest, j) else Pairs([SPACE] + rest, None, 1, j)
  {
    var lead, end := Lit("$Version="), Glue(comma) + rest;
    var s := lead + (TextOf(w) + end);
    assert s[..8] == Lit("$Version") && s[0] == DOLLAR;
    assert Unseparated(lead + TextOf(w));
    assert s == (lead + TextOf(w)) + end;
    VersionSkips(lead + TextOf(w), end);
    assert end[1..] == [SPACE] + rest;
  }

  /** The first cookie of a header needs no separator in front of it. */
  lemma ItemsLead(items: seq<Item>, version: nat)
    requires ItemsOk(items)
    ensures Parsed(Pairs([SPACE] + ItemsText(items), None, version, Empty), [], Success, items, version)
    ensures Parsed(Pairs(ItemsText(items), None, version, Empty), [], Success, items, version)
  {
    var text := ItemsText(items);
    var s := [SPACE] + text;
    assert s[1..] == text;
    if items != [] {
      ItemsParseMore(items, None, version, Empty);
      ItemsStart(items);
      PairsSkip(s, text, None, version, Empty);
    } else {
      assert SkipSemis([]) == [] && SkipSemis(s) == [];
    }
  }

  lemma HeaderLead(items: seq<Item>)
    requires ItemsOk(items)
    ensures Header(ItemsText(items), Empty) == Pairs(ItemsText(items), None, 0, Empty)
    ensures Header([SPACE] + ItemsText(items), Empty) == Pairs(ItemsText(items), None, 0, Empty)
  {
    var text := ItemsText(items);
    if items == [] {
      assert ([SPACE] + text)[1..] == [] && SkipSpace([]) == [];
    } else {
      ItemsStart(items);
      SpaceThenPairs(text, Empty);
      assert SkipSpace(text) == text;
    }
  }

  function LeadVersion(lead: Lead): nat { if lead.Versioned? && !lead.comma then 1 else 0 }

  predicate LeadOk(lead: Lead) { lead.Versioned? ==> Unseparated(TextOf(lead.value)) }

  /** What a printed header parses to: its cookies and attributes in order, where a comma
      ends the version in force; an attribute without one is an error that loses nothing. */
  lemma HeaderParses(lead: Lead, items: seq<Item>)
    requires ItemsOk(items) && LeadOk(lead)
    ensures
      var r := Header(HeaderText(lead, items), Empty);
      r.rv == Verdict(items, LeadVersion(lead), Success) && Cookies(r.found) == CookiesOf(items, LeadVersion(lead))
  {
    ItemsLead(items, LeadVersion(lead));
    HeaderLead(items);
    assert Cookies([]) + CookiesOf(items, LeadVersion(lead)) == CookiesOf(items, LeadVersion(lead));
    if lead.Versioned? {
      VersionLeads(lead.value, lead.comma, ItemsText(items), Empty);
    }
  }

  // ------------------------------------------------------------ when the version is kept

  /** The cookies as they were meant: one version for the whole header. */
  function Meant(items: seq<Item>, version: nat): seq<Cookie> {
    if items == [] then [] else [CookieOf(items[0], version)] + Meant(items[1..], version)
  }

  predicate NoCommas(items: seq<Item>) { forall i :: 0 <= i < |items| - 1 ==> !items[i].comma }

  predicate NoAttrs(items: seq<Item>) { forall i :: 0 <= i < |items| ==> items[i].attrs == [] }

  lemma {:induction false} AttrsKeepVersion(c: Cookie, attrs: seq<Attr>)
    ensures WithAttrs(c, attrs).version == c.version
    decreases |attrs|
  {
    if attrs != [] { AttrsKeepVersion(WithAttr(c, attrs[0]), attrs[1..]); }
  }

  lemma {:induction false} MeantExactly(items: seq<Item>, version: nat)
    requires version <= 1
    ensures CookiesOf(items, version) == Meant(items, 1) <==> items == [] || (version == 1 && NoCommas(items))
    ensures CookiesOf(items, 0) == Meant(items, 0)
    decreases |items|
  {
    if items != [] {
      var more := items[1..];
      MeantExactly(more, VersionBehind(items[0].comma, version));
      AttrsKeepVersion(MakeCookie(items[0].name, TextOf(items[0].value), version), items[0].attrs);
      AttrsKeepVersion(MakeCookie(items[0].name, TextOf(items[0].value), 1), items[0].attrs);
      FirstComma(items);
      assert CookiesOf(items, version)[0] == CookieOf(items[0], version);
      assert CookiesOf(items, version)[1..] == CookiesOf(more, VersionBehind(items[0].comma, version));
      assert Meant(items, 1)[0] == CookieOf(items[0], 1) && Meant(items, 1)[1..] == Meant(more, 1);
    }
  }

  lemma FirstComma(items: seq<Item>)
    requires items != []
    ensures NoCommas(items) <==> |items| == 1 || (!items[0].comma && NoCommas(items[1..]))
  {
    if |items| > 1 && !items[0].comma && NoCommas(items[1..]) {
      forall i | 0 <= i < |items| - 1
        ensures !items[i].comma
      {
        if i > 0 { assert !items[1..][i - 1].comma; }
      }
    }
    if NoCommas(items) {
      assert forall i :: 0 <= i < |items[1..]| - 1 ==> items[1..][i] == items[i + 1];
    }
  }

  lemma {:induction false} VerdictStays(items: seq<Item>, rv: Status)
    ensures Verdict(items, 0, rv) == if NoAttrs(items) then rv else Mismatch
    ensures NoCommas(items) ==> Verdict(items, 1, rv) == rv
    decreases |items|
  {
    if items != [] {
      var more := items[1..];
      VerdictStays(more, RvWith(items[0].attrs, 0, rv));
      VerdictStays(more, rv);
      FirstComma(items);
      assert items == [items[0]] + more;
      assert NoAttrs(items) <==> items[0].attrs == [] && NoAttrs(more);
    }
  }

  /** Printed cookies come back with success, with their values, attributes and version,
      exactly if attributes stand behind a $Version only, and no comma behind one. */
  lemma HeaderRoundTrip(lead: Lead, items: seq<Item>)
    requires ItemsOk(items) && LeadOk(lead)
    ensures
      var r := Header(HeaderText(lead, items), Empty);
      r.rv == Success && Cookies(r.found) == Meant(items, if lead.Versioned? then 1 else 0) <==>
        match lead
        case NoVersion => NoAttrs(items)
        case Versioned(_, comma) => items == [] || (!comma && NoCommas(items))
  {
    HeaderParses(lead, items);
    MeantExactly(items, LeadVersion(lead));
    VerdictStays(items, Success);
  }

  /** 1; a=b, c=d */
  const TwoCookies: bytes := [49, SEMI, SPACE, 97, EQUALS, 98, COMMA, SPACE, 99, EQUALS, 100]

  /** The second cookie of $Version=1; a=b, c=d is read without that version. */
  lemma CommaEndsVersion()
    ensures
      var r := Header(Lit("$Version=") + TwoCookies, Empty);
      r.rv == Success && Cookies(r.found) == [MakeCookie([97], [98], 1), MakeCookie([99], [100], 0)]
  {
    var a, c := Item([97], Bare([98]), [], true), Item([99], Bare([100]), [], false);
    TwoItems(a, c);
    HeaderParses(Versioned(Bare([49]), false), [a, c]);
    TwoTexts(a, c);
  }

  lemma TwoItems(a: Item, c: Item)
    requires a == Item([97], Bare([98]), [], true) && c == Item([99], Bare([100]), [], false)
    ensures CookiesOf([a, c], 1) == [MakeCookie([97], [98], 1), MakeCookie([99], [100], 0)]
    ensures Verdict([a, c], 1, Success) == Success
  {
    assert [a, c][1..] == [c] && [c][1..] == [];
    assert CookiesOf([c], 0) == [MakeCookie([99], [100], 0)];
    assert Verdict([c], 0, Success) == Success;
  }

  lemma TwoTexts(a: Item, c: Item)
    requires a == Item([97], Bare([98]), [], true) && c == Item([99], Bare([100]), [], false)
    ensures [49] + (Glue(false) + ItemsText([a, c])) == TwoCookies
  {
    assert [a, c][1..] == [c];
    assert ItemsText([c]) == [99, EQUALS, 100];
    assert ItemsText([a, c]) == [97, EQUALS, 98, COMMA, SPACE, 99, EQUALS, 100];
  }
}
