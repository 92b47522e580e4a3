/** What becomes of a body part (library/parser_multipart.c, MFD_POST_HEADER), for any headers
    it may have. */
module PartKinds {
  import opened Bytes
  import opened HeaderAttributes
  import opened AttributeLaws
  import opened Multipart

  /** The Content-Type is absent, or of no multipart type. */
  predicate NotNested(info: seq<Entry>) {
    match Lookup(info, CONTENT_TYPE) case None => true case Some(ct) => !(MULTIPART <= ct)
  }

  /** A word and, behind a separator, a written list of attributes: form-data; name="..." */
  function Led(word: bytes, sep: byte, attrs: seq<Written>): bytes { word + [sep] + PrintAttrs(attrs) }

  predicate LedOk(word: bytes, sep: byte, attrs: seq<Written>) {
    IsTokenString(word) && (sep == SEMI || sep == COMMA) && Printable(attrs)
  }

  /** The word does not get into the way of an attribute that it does not name. */
  lemma LedAttributes(word: bytes, sep: byte, attrs: seq<Written>, rest: bytes, name: bytes)
    requires LedOk(word, sep, attrs) && EndsThere(rest) && name != [] && !SameNoCase(word, name)
    ensures Attribute(Led(word, sep, attrs) + rest, name) == FirstAttr(Listed(attrs), name)
  {
    var w := Written([], word, [], None, [], [], sep);
    var all := [w] + attrs;
    assert all[1..] == attrs;
    assert AttrText(w) == word;
    Assoc(word, [sep], PrintAttrs(attrs));
    WordIsWritten(word, sep);
    PrintedAttributes(all, rest, name);
    ListedCons(all, name);
  }

  lemma WordIsWritten(word: bytes, sep: byte)
    requires IsTokenString(word) && (sep == SEMI || sep == COMMA)
    ensures WrittenOk(Written([], word, [], None, [], [], sep))
  {
    forall i | 0 <= i < |word|
      ensures !EndsName(word[i]) && !IsBlank(word[i]) && !IsCntrl(word[i])
    {
      TokenEndsNoName(word[i]);
    }
  }

  lemma DispositionTokens()
    ensures IsTokenString(FORM_DATA) && IsTokenString(FILE)
    ensures !SameNoCase(FORM_DATA, NAME) && !SameNoCase(FORM_DATA, FILENAME)
    ensures !SameNoCase(FILE, FILENAME)
    ensures !SameNoCase(FILE, NAME)
  {
    assert FILE[0] == 102 && NAME[0] == 110;
  }

  lemma LedStarts(word: bytes, sep: byte, attrs: seq<Written>, rest: bytes)
    ensures word <= Led(word, sep, attrs) + rest
  {
    var d := Led(word, sep, attrs) + rest;
    assert d[..|word|] == word;
  }

  /** A form-data part, whatever other headers it has: a field under the name its disposition
      gives, or a file if there is a filename too; without a name it is an error. */
  lemma FormDataKind(info: seq<Entry>, pname: Option<bytes>, level: nat, sep: byte, attrs: seq<Written>, rest: bytes)
    requires NotNested(info) && LedOk(FORM_DATA, sep, attrs) && EndsThere(rest)
    requires Lookup(info, DISPOSITION) == Some(Led(FORM_DATA, sep, attrs) + rest)
    ensures Classify(info, pname, level) ==
            match (Lookup(Listed(attrs), NAME), Lookup(Listed(attrs), FILENAME))
            case (None, _) => Bad
            case (Some(n), None) => Field(n)
            case (Some(n), Some(f)) => Upload(n, f)
  {
    DispositionTokens();
    LedStarts(FORM_DATA, sep, attrs, rest);
    LedAttributes(FORM_DATA, sep, attrs, rest, NAME);
    LedAttributes(FORM_DATA, sep, attrs, rest, FILENAME);
    FormDataIs(info, Led(FORM_DATA, sep, attrs) + rest, pname, level);
  }

  lemma FormDataIs(info: seq<Entry>, d: bytes, pname: Option<bytes>, level: nat)
    requires NotNested(info) && Lookup(info, DISPOSITION) == Some(d) && FORM_DATA <= d
    ensures Classify(info, pname, level) ==
            var n, f := Attribute(d, NAME), Attribute(d, FILENAME);
            if n.st != Success then Bad else if f.st == Success then Upload(n.val, f.val)
            else if f.st == NoAttr then Field(n.val) else Bad
  {
  }

  /** A file of a list, whatever other headers it has: it has the name of the list. */
  lemma ListFileKind(info: seq<Entry>, pname: Option<bytes>, level: nat, sep: byte, attrs: seq<Written>, rest: bytes)
    requires NotNested(info) && LedOk(FILE, sep, attrs) && EndsThere(rest)
    requires Lookup(info, DISPOSITION) == Some(Led(FILE, sep, attrs) + rest)
    ensures Classify(info, pname, level) ==
            match (pname, Lookup(Listed(attrs), FILENAME))
            case (Some(n), Some(f)) => Upload(n, f)
            case _ => Bad
  {
    DispositionTokens();
    LedStarts(FILE, sep, attrs, rest);
    LedAttributes(FILE, sep, attrs, rest, FILENAME);
    FileIs(info, Led(FILE, sep, attrs) + rest, pname, level);
  }

  lemma FileIs(info: seq<Entry>, d: bytes, pname: Option<bytes>, level: nat)
    requires NotNested(info) && Lookup(info, DISPOSITION) == Some(d) && FILE <= d
    ensures Classify(info, pname, level) ==
            var f := Attribute(d, FILENAME);
            if f.st != Success || pname.None? then Bad else Upload(pname.value, f.val)
  {
    assert d[..4] == FILE && d[1] == 105;
  }

  /** What names a part that has no name of its own. */
  function ById(info: seq<Entry>): bytes {
    match Lookup(info, CONTENT_ID) case Some(cid) => cid case None => []
  }

  /** A part with neither kind of disposition is an upload, named by its Content-ID. */
  lemma OtherKind(info: seq<Entry>, pname: Option<bytes>, level: nat)
    requires NotNested(info)
    requires
      match Lookup(info, DISPOSITION)
      case None => true
      case Some(d) => !(FORM_DATA <= d) && !(FILE <= d)
    ensures Classify(info, pname, level) == Upload(ById(info), [])
  {
  }

  /** A multipart part, whatever other headers it has: a message of its own below level
      eight, under the name its disposition gives, or else under its Content-ID. */
  lemma NestedKind(info: seq<Entry>, pname: Option<bytes>, level: nat, ct: bytes)
    requires Lookup(info, CONTENT_TYPE) == Some(ct) && MULTIPART <= ct
    ensures level >= MAX_LEVEL || BoundaryOf(ct).None? ==> Classify(info, pname, level) == Bad
    ensures level < MAX_LEVEL && BoundaryOf(ct).Some? && Lookup(info, DISPOSITION).None? ==>
              Classify(info, pname, level) == Nested(BoundaryOf(ct).value, ById(info))
  {
  }

  lemma NamedNestedKind(info: seq<Entry>, pname: Option<bytes>, level: nat, ct: bytes, b: bytes,
                        word: bytes, sep: byte, attrs: seq<Written>, rest: bytes)
    requires Lookup(info, CONTENT_TYPE) == Some(ct) && MULTIPART <= ct && BoundaryOf(ct) == Some(b)
    requires LedOk(word, sep, attrs) && EndsThere(rest) && !SameNoCase(word, NAME) && level < MAX_LEVEL
    requires Lookup(info, DISPOSITION) == Some(Led(word, sep, attrs) + rest)
    ensures Classify(info, pname, level) ==
            Nested(b, match Lookup(Listed(attrs), NAME) case Some(n) => n case None => ById(info))
  {
    LedAttributes(word, sep, attrs, rest, NAME);
    var d := Led(word, sep, attrs) + rest;
    NestedIs(info, ct, level, b, d, Attribute(d, NAME), pname);
  }

  lemma NestedIs(info: seq<Entry>, ct: bytes, level: nat, b: bytes, d: bytes, a: Attr, pname: Option<bytes>)
    requires Lookup(info, CONTENT_TYPE) == Some(ct) && MULTIPART <= ct && BoundaryOf(ct) == Some(b)
    requires Lookup(info, DISPOSITION) == Some(d) && a == Attribute(d, NAME) && level < MAX_LEVEL
    requires a.st == Success || a.st == NoAttr
    ensures Classify(info, pname, level) == Nested(b, if a.st == Success then a.val else ById(info))
  {
  }

  // ------------------------------------------------------------ boundaries

  lemma {:induction false} AfterLead(lead: bytes, rest: bytes, i: nat)
    requires i <= |lead| && forall j :: 0 <= j < |lead| ==> lead[j] != SEMI && lead[j] != 0
    ensures AfterSemi(lead + [SEMI] + rest, i) == Some(rest)
    decreases |lead| - i
  {
    var ct := lead + [SEMI] + rest;
    if i < |lead| {
      AfterLead(lead, rest, i + 1);
    } else {
      assert ct[i + 1..] == rest;
    }
  }

  /** The boundary of a content type is what its attributes list under that name, in quotes
      or not. */
  lemma BoundaryFound(lead: bytes, attrs: seq<Written>, rest: bytes)
    requires Printable(attrs) && EndsThere(rest) && forall j :: 0 <= j < |lead| ==> lead[j] != SEMI && lead[j] != 0
    ensures BoundaryOf(lead + [SEMI] + (PrintAttrs(attrs) + rest)) ==
            match Lookup(Listed(attrs), BOUNDARY) case Some(b) => (if b == [] then None else Some(b)) case None => None
  {
    AfterLead(lead, PrintAttrs(attrs) + rest, 0);
    PrintedAttributes(attrs, rest, BOUNDARY);
  }
}
