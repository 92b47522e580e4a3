/** Bytes, the C-locale character classes, status codes and parameter records
    that every other module shares. */
module Bytes {

  /** An octet, as the source reads it through an unsigned char. */
  type byte = x: int | 0 <= x < 256

  type bytes = seq<byte>

  datatype Option<+T> = None | Some(value: T)

  const TAB: byte := 9
  const LF: byte := 10
  const CR: byte := 13
  const SPACE: byte := 32
  const QUOTE: byte := 34
  const DOLLAR: byte := 36
  const PERCENT: byte := 37
  const AMP: byte := 38
  const PLUS: byte := 43
  const COMMA: byte := 44
  const DASH: byte := 45
  const COLON: byte := 58
  const SEMI: byte := 59
  const EQUALS: byte := 61
  const BACKSLASH: byte := 92

  const CRLF: bytes := [CR, LF]
  const DASHES: bytes := [DASH, DASH]

  /** The status codes of include/apreq_error.h and the APR codes the parsers return. */
  datatype Status =
    | Success
    | Incomplete
    | Eof
    | BadArg
    | NotImpl
    | General
    | BadChar
    | BadSeq
    | BadAttr
    | BadHeader
    | NoToken
    | NoAttr
    | Mismatch
    | OverLimit
    | NoData
    | NoHeader
    | NoParser
    | IoError

  datatype Charset = Ascii | Latin1 | Cp1252 | Utf8

  predicate IsDigit(c: byte) { 48 <= c <= 57 }

  predicate IsUpper(c: byte) { 65 <= c <= 90 }

  predicate IsLower(c: byte) { 97 <= c <= 122 }

  predicate IsAlnum(c: byte) { IsDigit(c) || IsUpper(c) || IsLower(c) }

  predicate IsHexDigit(c: byte) { IsDigit(c) || 65 <= c <= 70 || 97 <= c <= 102 }

  predicate IsCntrl(c: byte) { c < 32 || c == 127 }

  /** apr_isspace: space, \t, \n, \v, \f, \r. */
  predicate IsSpace(c: byte) { c == 32 || 9 <= c <= 13 }

  predicate IsBlank(c: byte) { c == SPACE || c == TAB }

  /** The token characters of IS_TOKEN_CHAR: alphanumerics and !#$%&'*+-.^_`|~ */
  predicate IsToken(c: byte) {
    || IsAlnum(c)
    || c == 33 || 35 <= c <= 39 || c == 42 || c == 43 || c == 45 || c == 46
    || 94 <= c <= 96 || c == 124 || c == 126
  }

  function Lower(c: byte): byte { if IsUpper(c) then c + 32 else c }

  /** strcasecmp(a, b) == 0 for strings of known length. */
  predicate SameNoCase(a: bytes, b: bytes) {
    |a| == |b| && forall i :: 0 <= i < |a| ==> Lower(a[i]) == Lower(b[i])
  }

  /** A character of the NUL-terminated string s. */
  function At(s: bytes, i: nat): byte { if i < |s| then s[i] else 0 }

  /** The character codes of a Dafny string literal. */
  function Lit(s: string): bytes
    requires forall i :: 0 <= i < |s| ==> s[i] < 128 as char
  {
    seq(|s|, i requires 0 <= i < |s| => s[i] as int)
  }

  /** A name and value as one entry of an apr_table_t. */
  datatype Entry = Entry(name: bytes, value: bytes)

  /** apr_table_get: the first entry whose key matches without regard to case. */
  function Lookup(t: seq<Entry>, key: bytes): Option<bytes> {
    if t == [] then None
    else if SameNoCase(t[0].name, key) then Some(t[0].value)
    else Lookup(t[1..], key)
  }

  /** A parameter: a row of a table of arguments or of a body. */
  datatype Param = Param(name: bytes, value: bytes, upload: Option<bytes>, info: seq<Entry>,
                         charset: Charset, tainted: bool)

  // ------------------------------------------------------------ sequences

  lemma Assoc<T>(a: seq<T>, b: seq<T>, c: seq<T>)
    ensures (a + b) + c == a + (b + c)
  {
  }

  lemma HeadTail<T>(s: seq<T>, k: nat)
    requires k < |s|
    ensures s[k..] == [s[k]] + s[k + 1..]
  {
  }

  lemma TailOfConcat<T>(a: seq<T>, b: seq<T>, k: nat)
    requires k <= |a|
    ensures (a + b)[k..] == a[k..] + b
  {
  }

  lemma Halves<T>(s: seq<T>, k: nat)
    requires k <= |s|
    ensures s[..k] + s[k..] == s
  {
  }

  lemma SliceJoins<T>(s: seq<T>, i: nat, j: nat, k: nat)
    requires i <= j <= k <= |s|
    ensures s[i..j] + s[j..k] == s[i..k]
  {
  }

  lemma SliceOfTake<T>(s: seq<T>, p: nat, i: nat, j: nat)
    requires i <= j <= p <= |s|
    ensures s[..p][i..j] == s[i..j]
  {
  }

  lemma DropTwice<T>(s: seq<T>, i: nat, j: nat, k: nat)
    requires i + j == k <= |s|
    ensures s[i..][j..] == s[k..]
  {
  }

  lemma DropOfTake<T>(s: seq<T>, p: nat, i: nat, k: nat)
    requires i + k == p <= |s|
    ensures s[..p][i..] == s[i..][..k]
  {
  }
}
