/** Form submissions as section 5.1.1 of RFC 2046 writes them: the sender's fields and
    files come back from the parser under their names, in order. */
module FormData {
  import opened Bytes
  import opened HeaderGrammar
  import opened Brigades
  import opened AttributeLaws
  import opened PartKinds
  import opened Multipart
  import opened MultipartRuns

  const FORM_TYPE := Lit("multipart/form-data")
  const MIXED_TYPE := Lit("multipart/mixed")

  /** The other headers of a part, in front of its disposition and behind it. */
  datatype Others = Others(before: seq<Raw>, after: seq<Raw>)

  /** A form field, or a file with its name. */
  datatype Input = Input(name: bytes, filename: Option<bytes>, content: bytes, others: Others)

  datatype File = File(filename: bytes, content: bytes, others: Others)

  /** What a form has under one name: an input, or a list of files that are sent as a
      multipart/mixed message of their own. */
  datatype Item = Single(f: Input) | Files(name: bytes, bdry: bytes, files: seq<File>, others: Others)

  function QuotedAttr(k: bytes, v: bytes): Written { Written([SPACE], k, [], Some(Quoted(v)), [], [], SEMI) }

  /** lead; boundary=b, with b in quotes or not */
  function TypeWith(lead: bytes, b: Text): bytes {
    lead + [SEMI] + PrintAttrs([Written([SPACE], BOUNDARY, [], Some(b), [], [], SEMI)])
  }

  function ContentType(b: Text): bytes { TypeWith(FORM_TYPE, b) }

  function MixedType(b: bytes): bytes { TypeWith(MIXED_TYPE, Quoted(b)) }

  function Attrs(name: bytes, filename: Option<bytes>): (a: seq<Written>)
    ensures |a| > 0
  {
    [QuotedAttr(NAME, name)]
    + match filename case Some(n) => [QuotedAttr(FILENAME, n)] case None => []
  }

  /** form-data; name="..."; filename="..." */
  function Disposition(name: bytes, filename: Option<bytes>): bytes {
    Led(FORM_DATA, SEMI, Attrs(name, filename))
  }

  function FileDisposition(filename: bytes): bytes {
    Led(FILE, SEMI, [QuotedAttr(FILENAME, filename)])
  }

  /** A header line: name, colon, blank, value, CRLF. */
  function Line(name: bytes, value: bytes): Raw { Raw(name, [COLON, SPACE], value + CRLF) }

  /** The headers of a part, its own ones being in the middle. */
  function Among(own: seq<Raw>, o: Others): seq<Raw> { o.before + own + o.after }

  function FormHeaders(f: Input): seq<Raw> { Among([Line(DISPOSITION, Disposition(f.name, f.filename))], f.others) }

  function FormPart(f: Input): Part { Part([], FormHeaders(f), CRLF, Leaf(f.content, false)) }

  function FileHeaders(f: File): seq<Raw> { Among([Line(DISPOSITION, FileDisposition(f.filename))], f.others) }

  function FilePart(f: File): Part { Part([], FileHeaders(f), CRLF, Leaf(f.content, false)) }

  function FileParts(fs: seq<File>): seq<Part> {
    if fs == [] then [] else [FilePart(fs[0])] + FileParts(fs[1..])
  }

  function ListHeaders(name: bytes, b: bytes, o: Others): seq<Raw> {
    Among([Line(DISPOSITION, Disposition(name, None)), Line(CONTENT_TYPE, MixedType(b))], o)
  }

  function ItemPart(i: Item): Part {
    match i
    case Single(f) => FormPart(f)
    case Files(name, b, files, o) => Part([], ListHeaders(name, b, o), CRLF, Multi(b, FileParts(files), []))
  }

  function FormParts(items: seq<Item>): seq<Part> {
    if items == [] then [] else [ItemPart(items[0])] + FormParts(items[1..])
  }

  /** The row a field or file stands for. */
  function FormRow(f: Input): Param {
    var info := Entries(FormHeaders(f));
    match f.filename
    case None => Param(f.name, f.content, None, info, Charsets.Divine(f.content), true)
    case Some(n) => Param(f.name, n, Some(f.content), info, Ascii, true)
  }

  /** A file of a list has the name of the list. */
  function FileRow(name: bytes, f: File): Param {
    Param(name, f.filename, Some(f.content), Entries(FileHeaders(f)), Ascii, true)
  }

  function FileRows(name: bytes, fs: seq<File>): seq<Param> {
    if fs == [] then [] else [FileRow(name, fs[0])] + FileRows(name, fs[1..])
  }

  function ItemRows(i: Item): seq<Param> {
    match i
    case Single(f) => [FormRow(f)]
    case Files(name, _, files, _) => FileRows(name, files)
  }

  function FormRows(items: seq<Item>): seq<Param> {
    if items == [] then [] else ItemRows(items[0]) + FormRows(items[1..])
  }

  predicate NoControls(s: bytes) { forall i :: 0 <= i < |s| ==> !IsCntrl(s[i]) }

  /** What can be sent between quotes in one line. */
  predicate InQuotes(v: bytes) { QuotedBody(v) && NoControls(v) }

  /** Any further headers, as long as no disposition comes in front of the part's own and no
      content type makes it a message of its own. */
  ghost predicate OthersOk(o: Others) {
    && FieldsOk(o.before) && FieldsOk(o.after)
    && Lookup(Entries(o.before), DISPOSITION) == None && NotNested(Entries(o.before) + Entries(o.after))
  }

  /** The same for a list, whose content type is its own. */
  ghost predicate ListOthersOk(o: Others) {
    && FieldsOk(o.before) && FieldsOk(o.after)
    && Lookup(Entries(o.before), DISPOSITION) == None && Lookup(Entries(o.before), CONTENT_TYPE) == None
  }

  /** Names that can stand in quotes; the delimiter not in the content. */
  ghost predicate InputOk(f: Input, b: bytes) {
    && InQuotes(f.name) && (f.filename.Some? ==> InQuotes(f.filename.value)) && Clean(f.content, b)
    && OthersOk(f.others)
  }

  ghost predicate FileOk(f: File, b: bytes) { InQuotes(f.filename) && Clean(f.content, b) && OthersOk(f.others) }

  /** The boundary of a list must not continue the outer one. */
  ghost predicate ItemOk(i: Item, b: bytes) {
    match i
    case Single(f) => InputOk(f, b)
    case Files(name, ib, files, o) =>
      && InQuotes(name) && ib != [] && InQuotes(ib) && ListOthersOk(o)
      && !(b <= ib + if files == [] then DASHES else [])
      && forall k :: 0 <= k < |files| ==> FileOk(files[k], ib)
  }

  // ------------------------------------------------------------ header lines

  lemma LiteralTokens()
    ensures IsTokenString(FORM_DATA) && IsTokenString(FILE) && IsTokenString(DISPOSITION)
    ensures IsTokenString(NAME) && IsTokenString(FILENAME) && IsTokenString(BOUNDARY)
  {
  }

  lemma TokensAreNoControls(s: bytes)
    requires IsTokenString(s)
    ensures NoControls(s)
  {
  }

  /** Attributes in quotes that fit in one line. */
  predicate LineAttrs(attrs: seq<Written>) {
    && Printable(attrs)
    && forall i :: 0 <= i < |attrs| ==> NoControls(AttrText(attrs[i]))
  }

  lemma AttrInLine(k: bytes, v: bytes)
    requires IsTokenString(k) && InQuotes(v)
    ensures WrittenOk(QuotedAttr(k, v)) && NoControls(AttrText(QuotedAttr(k, v)))
  {
    TokensAreNoControls(k);
  }

  lemma {:induction false} AttrsHaveNoControls(attrs: seq<Written>)
    requires attrs == [] || LineAttrs(attrs)
    ensures NoControls(PrintAttrs(attrs))
    decreases |attrs|
  {
    if attrs != [] {
      AttrsHaveNoControls(attrs[1..]);
    }
  }

  lemma AttrsInLine(name: bytes, filename: Option<bytes>)
    requires InQuotes(name) && (filename.Some? ==> InQuotes(filename.value))
    ensures LineAttrs(Attrs(name, filename))
  {
    LiteralTokens();
    AttrInLine(NAME, name);
    if filename.Some? { AttrInLine(FILENAME, filename.value); }
  }

  lemma LedInLine(word: bytes, attrs: seq<Written>)
    requires IsTokenString(word) && LineAttrs(attrs)
    ensures NoControls(Led(word, SEMI, attrs)) && Led(word, SEMI, attrs) != [] && !IsBlank(Led(word, SEMI, attrs)[0])
  {
    TokensAreNoControls(word);
    AttrsHaveNoControls(attrs);
    assert Led(word, SEMI, attrs)[0] == word[0];
    TokenEndsNoName(word[0]);
  }

  lemma {:induction false} UnfoldPlain(s: bytes)
    requires NoControls(s)
    ensures Unfold(s + CRLF) == s
  {
    if s == [] {
      assert s + CRLF == [CR] + [LF] && (s + CRLF)[1..] == [LF];
      assert Unfold([LF]) == [] + Unfold([LF][1..]);
    } else {
      UnfoldPlain(s[1..]);
      assert (s + CRLF)[1..] == s[1..] + CRLF;
    }
  }

  lemma LineIsWellFormed(name: bytes, value: bytes)
    requires IsTokenString(name) && NoControls(value) && value != [] && !IsBlank(value[0])
    ensures WellFormed(Line(name, value)) && Unfold(Line(name, value).val) == value
  {
    UnfoldPlain(value);
    var val := value + CRLF;
    assert val[0] == value[0];
    assert ValuePrefix(val);
  }

  lemma LedLine(word: bytes, attrs: seq<Written>)
    requires IsTokenString(word) && LineAttrs(attrs)
    ensures
      var l := Line(DISPOSITION, Led(word, SEMI, attrs));
      WellFormed(l) && Entry(l.name, Unfold(l.val)) == Entry(DISPOSITION, Led(word, SEMI, attrs))
  {
    LiteralTokens();
    LedInLine(word, attrs);
    LineIsWellFormed(DISPOSITION, Led(word, SEMI, attrs));
  }

  lemma MixedLine(ib: bytes)
    requires InQuotes(ib)
    ensures
      var t := Line(CONTENT_TYPE, MixedType(ib));
      WellFormed(t) && Entry(t.name, Unfold(t.val)) == Entry(CONTENT_TYPE, MixedType(ib))
  {
    LiteralTokens();
    AttrInLine(BOUNDARY, ib);
    AttrsHaveNoControls([QuotedAttr(BOUNDARY, ib)]);
    assert NoControls(MIXED_TYPE) && IsTokenString(CONTENT_TYPE);
    assert MixedType(ib)[0] == MIXED_TYPE[0];
    LineIsWellFormed(CONTENT_TYPE, MixedType(ib));
  }

  // ------------------------------------------------------------ lookups among other headers

  lemma {:induction false} LookupConcat(a: seq<Entry>, b: seq<Entry>, key: bytes)
    ensures Lookup(a + b, key) == if Lookup(a, key).Some? then Lookup(a, key) else Lookup(b, key)
  {
    if a == [] {
      assert a + b == b;
    } else {
      LookupConcat(a[1..], b, key);
      assert (a + b)[1..] == a[1..] + b;
    }
  }

  lemma EntriesAmong(own: seq<Raw>, o: Others)
    ensures Entries(Among(own, o)) == Entries(o.before) + (Entries(own) + Entries(o.after))
  {
  }

  lemma LookupAmong(own: seq<Raw>, o: Others, key: bytes)
    ensures
      var es := Entries(o.before);
      Lookup(Entries(Among(own, o)), key) ==
      if Lookup(es, key).Some? then Lookup(es, key)
      else if Lookup(Entries(own), key).Some? then Lookup(Entries(own), key) else Lookup(Entries(o.after), key)
  {
    EntriesAmong(own, o);
    LookupConcat(Entries(o.before), Entries(own) + Entries(o.after), key);
    LookupConcat(Entries(own), Entries(o.after), key);
  }

  lemma FieldsAmong(own: seq<Raw>, o: Others)
    requires FieldsOk(own) && FieldsOk(o.before) && FieldsOk(o.after)
    ensures FieldsOk(Among(own, o))
  {
    var hs := Among(own, o);
    forall i | 0 <= i < |hs|
      ensures WellFormed(hs[i])
    {
      if i < |o.before| {
        assert hs[i] == o.before[i];
      } else if i < |o.before| + |own| {
        assert hs[i] == own[i - |o.before|];
      } else {
        assert hs[i] == o.after[i - |o.before| - |own|];
      }
    }
  }

  /** The disposition of a part, whatever other headers it has. */
  lemma DispositionAmong(d: Raw, o: Others, value: bytes)
    requires WellFormed(d) && Entry(d.name, Unfold(d.val)) == Entry(DISPOSITION, value) && OthersOk(o)
    ensures
      var hs := Among([d], o);
      FieldsOk(hs) && Lookup(Entries(hs), DISPOSITION) == Some(value) && NotNested(Entries(hs))
  {
    FieldsAmong([d], o);
    OneEntry(d, value);
    LookupAmong([d], o, DISPOSITION);
    LookupAmong([d], o, CONTENT_TYPE);
    LookupConcat(Entries(o.before), Entries(o.after), CONTENT_TYPE);
  }

  lemma OneEntry(d: Raw, value: bytes)
    requires Entry(d.name, Unfold(d.val)) == Entry(DISPOSITION, value)
    ensures Lookup(Entries([d]), DISPOSITION) == Some(value) && Lookup(Entries([d]), CONTENT_TYPE) == None
  {
    var es := Entries([d]);
    assert es == [Entry(DISPOSITION, value)] && es[1..] == [];
  }

  lemma TwoEntries(d: Raw, t: Raw, value: bytes, ct: bytes)
    requires Entry(d.name, Unfold(d.val)) == Entry(DISPOSITION, value)
    requires Entry(t.name, Unfold(t.val)) == Entry(CONTENT_TYPE, ct)
    ensures Lookup(Entries([d, t]), DISPOSITION) == Some(value) && Lookup(Entries([d, t]), CONTENT_TYPE) == Some(ct)
  {
    var es := Entries([d, t]);
    assert es == [Entry(DISPOSITION, value), Entry(CONTENT_TYPE, ct)];
    assert es[1..] == [Entry(CONTENT_TYPE, ct)];
    assert Lookup(es[1..], CONTENT_TYPE) == Some(ct);
  }

  // ------------------------------------------------------------ what the headers mean

  lemma ListedAttrs(name: bytes, filename: Option<bytes>)
    ensures
      var es := Listed(Attrs(name, filename));
      Lookup(es, NAME) == Some(name) && Lookup(es, FILENAME) == filename
  {
    var es := Listed(Attrs(name, filename));
    if filename.Some? {
      assert es[1..] == [Entry(FILENAME, filename.value)];
    } else {
      assert es[1..] == [];
    }
    assert Lookup(es, FILENAME) == Lookup(es[1..], FILENAME);
  }

  lemma ListedOne(k: bytes, v: bytes)
    ensures Lookup(Listed([QuotedAttr(k, v)]), k) == Some(v)
  {
  }

  /** A printed field or file is taken for what it is. */
  lemma FormKind(f: Input, pname: Option<bytes>, level: nat)
    requires InQuotes(f.name) && (f.filename.Some? ==> InQuotes(f.filename.value)) && OthersOk(f.others)
    ensures FieldsOk(FormHeaders(f))
    ensures Classify(Entries(FormHeaders(f)), pname, level)
         == match f.filename case Some(n) => Upload(f.name, n) case None => Field(f.name)
  {
    var attrs := Attrs(f.name, f.filename);
    var value := Led(FORM_DATA, SEMI, attrs);
    LiteralTokens();
    AttrsInLine(f.name, f.filename);
    LedLine(FORM_DATA, attrs);
    DispositionAmong(Line(DISPOSITION, value), f.others, value);
    assert value + [] == value;
    FormDataKind(Entries(FormHeaders(f)), pname, level, SEMI, attrs, []);
    ListedAttrs(f.name, f.filename);
  }

  lemma FileKind(f: File, name: bytes, level: nat)
    requires InQuotes(f.filename) && OthersOk(f.others)
    ensures FieldsOk(FileHeaders(f)) && Classify(Entries(FileHeaders(f)), Some(name), level) == Upload(name, f.filename)
  {
    var attrs := [QuotedAttr(FILENAME, f.filename)];
    var value := Led(FILE, SEMI, attrs);
    LiteralTokens();
    AttrInLine(FILENAME, f.filename);
    LedLine(FILE, attrs);
    DispositionAmong(Line(DISPOSITION, value), f.others, value);
    assert value + [] == value;
    ListFileKind(Entries(FileHeaders(f)), Some(name), level, SEMI, attrs, []);
    ListedOne(FILENAME, f.filename);
  }

  lemma MixedHasBoundary(ib: bytes)
    requires ib != [] && InQuotes(ib)
    ensures MULTIPART <= MixedType(ib) && BoundaryOf(MixedType(ib)) == Some(ib)
  {
    TypeHasBoundary(MIXED_TYPE, Quoted(ib));
  }

  lemma TypeHasBoundary(lead: bytes, b: Text)
    requires b.v != [] && TextOk(b) && forall j :: 0 <= j < |lead| ==> lead[j] != SEMI && lead[j] != 0
    ensures BoundaryOf(TypeWith(lead, b)) == Some(b.v)
  {
    var attrs := [Written([SPACE], BOUNDARY, [], Some(b), [], [], SEMI)];
    LiteralTokens();
    assert PrintAttrs(attrs) + [] == PrintAttrs(attrs);
    BoundaryFound(lead, attrs, []);
    assert Lookup(Listed(attrs), BOUNDARY) == Some(b.v);
  }

  /** A multipart part: a message of its own, under the name of the disposition. */
  lemma ListKind(name: bytes, ib: bytes, o: Others, pname: Option<bytes>, level: nat)
    requires InQuotes(name) && ib != [] && InQuotes(ib) && ListOthersOk(o)
    ensures FieldsOk(ListHeaders(name, ib, o))
    ensures Classify(Entries(ListHeaders(name, ib, o)), pname, level) == if level < MAX_LEVEL then Nested(ib, name) else Bad
  {
    var attrs := Attrs(name, None);
    var d, t := Line(DISPOSITION, Disposition(name, None)), Line(CONTENT_TYPE, MixedType(ib));
    LiteralTokens();
    DispositionTokens();
    AttrsInLine(name, None);
    LedLine(FORM_DATA, attrs);
    MixedLine(ib);
    FieldsAmong([d, t], o);
    TwoEntries(d, t, Disposition(name, None), MixedType(ib));
    LookupAmong([d, t], o, DISPOSITION);
    LookupAmong([d, t], o, CONTENT_TYPE);
    MixedHasBoundary(ib);
    ListedAttrs(name, None);
    ListClassified(Entries(ListHeaders(name, ib, o)), pname, level, MixedType(ib), ib, attrs, name);
  }

  lemma ListClassified(info: seq<Entry>, pname: Option<bytes>, level: nat, ct: bytes, ib: bytes, attrs: seq<Written>, name: bytes)
    requires Lookup(info, CONTENT_TYPE) == Some(ct) && MULTIPART <= ct && BoundaryOf(ct) == Some(ib)
    requires LedOk(FORM_DATA, SEMI, attrs) && Lookup(Listed(attrs), NAME) == Some(name)
    requires Lookup(info, DISPOSITION) == Some(Led(FORM_DATA, SEMI, attrs))
    ensures Classify(info, pname, level) == if level < MAX_LEVEL then Nested(ib, name) else Bad
  {
    DispositionTokens();
    NestedKind(info, pname, level, ct);
    assert Led(FORM_DATA, SEMI, attrs) + [] == Led(FORM_DATA, SEMI, attrs);
    if level < MAX_LEVEL { NamedNestedKind(info, pname, level, ct, ib, FORM_DATA, SEMI, attrs, []); }
  }

  // ------------------------------------------------------------ the whole form

  lemma FilePartOk(f: File, ib: bytes, name: bytes, level: nat)
    requires FileOk(f, ib)
    ensures
      var k := KindOf(FilePart(f), Some(name), level);
      && PartOk(FilePart(f), ib, Some(name), level) && NextName(k, Some(name)) == Some(name)
      && PartRows(FilePart(f), k, level) == [FileRow(name, f)]
  {
    FileKind(f, name, level);
  }

  lemma {:induction false} FilesArePrintable(fs: seq<File>, ib: bytes, name: bytes, level: nat)
    requires forall k :: 0 <= k < |fs| ==> FileOk(fs[k], ib)
    ensures PartsOk(FileParts(fs), ib, Some(name), level)
    ensures Rows(FileParts(fs), Some(name), level) == FileRows(name, fs)
  {
    if fs != [] {
      FilePartOk(fs[0], ib, name, level);
      FilesArePrintable(fs[1..], ib, name, level);
      assert FileParts(fs)[1..] == FileParts(fs[1..]);
    }
  }

  lemma FormPartOk(f: Input, b: bytes)
    requires InputOk(f, b)
    ensures PartOk(FormPart(f), b, None, 1) && NextName(KindOf(FormPart(f), None, 1), None) == None
    ensures PartRows(FormPart(f), KindOf(FormPart(f), None, 1), 1) == [FormRow(f)]
  {
    FormKind(f, None, 1);
  }

  lemma ListPartOk(i: Item, b: bytes)
    requires i.Files? && ItemOk(i, b)
    ensures PartOk(ItemPart(i), b, None, 1) && NextName(KindOf(ItemPart(i), None, 1), None) == None
    ensures PartRows(ItemPart(i), KindOf(ItemPart(i), None, 1), 1) == ItemRows(i)
  {
    ListKind(i.name, i.bdry, i.others, None, 1);
    FilesArePrintable(i.files, i.bdry, i.name, 2);
    assert LineOf(FileParts(i.files), []) == if i.files == [] then DASHES else [];
  }

  lemma {:induction false} FormIsPrintable(items: seq<Item>, b: bytes)
    requires forall i :: 0 <= i < |items| ==> ItemOk(items[i], b)
    ensures PartsOk(FormParts(items), b, None, 1) && Rows(FormParts(items), None, 1) == FormRows(items)
  {
    if items != [] {
      if items[0].Single? {
        FormPartOk(items[0].f, b);
      } else {
        ListPartOk(items[0], b);
      }
      FormIsPrintable(items[1..], b);
      assert FormParts(items)[1..] == FormParts(items[1..]);
    }
  }

  lemma FormStarts(b: Text, items: seq<Item>)
    requires b.v != [] && TextOk(b) && NoControls(b.v) && forall i :: 0 <= i < |items| ==> ItemOk(items[i], b.v)
    ensures BoundaryOf(ContentType(b)) == Some(b.v) && NoCR(b.v)
    ensures PartsOk(FormParts(items), b.v, None, 1) && Rows(FormParts(items), None, 1) == FormRows(items)
  {
    FormTypeHasBoundary(b);
    FormIsPrintable(items, b.v);
  }

  lemma FormTypeHasBoundary(b: Text)
    requires b.v != [] && TextOk(b)
    ensures BoundaryOf(ContentType(b)) == Some(b.v)
  {
    TypeHasBoundary(FORM_TYPE, b);
  }

  /** Any list of fields, files and lists of files, with any further headers, printed and cut
      into any calls and buckets, is what the parser adds to the table; what follows comes
      back. */
  method ParseForm(b: Text, calls: seq<seq<bytes>>, ghost items: seq<Item>, ghost tail: Tail)
    returns (st: Status, rows: seq<Param>, back: bytes, ghost used: nat)
    requires calls != [] && b.v != [] && TextOk(b) && NoControls(b.v) && NoCR(tail.close)
    requires forall i :: 0 <= i < |items| ==> ItemOk(items[i], b.v)
    requires Joined(calls) == WholeMessage(FormParts(items), b.v, tail)
    ensures st == Success && rows == FormRows(items) && 0 < used <= |calls|
    ensures tail.after.Some? ==> back + Joined(calls[used..]) == tail.after.value
  {
    FormStarts(b, items);
    st, rows, back, used := ParseMessage(ContentType(b), calls, FormParts(items), tail);
  }
}
