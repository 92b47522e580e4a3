# libapreq2 in Dafny

libapreq2 parses HTTP request data: bodies (urlencoded and multipart), query strings,
headers and cookies. Bodies arrive as *brigades*, rings of byte buckets that an EOS bucket
may end, in as many calls as the network makes of them. Each parser keeps a small state
between calls and must fill the same table however the bytes were cut into buckets and
calls. This project models those parsers, the codecs below them and the spool and filter
around them, and proves what they promise, for all inputs and all cuts.

`dafny verify dfyconfig.toml` checks the project (Dafny 4.11).

## How the model is built

- **Brigades** (`Brigades.dfy`): a class with a sequence of buckets. EOS is a mark on the
  brigade; nothing follows it. Bytes are 0..255; a test for `*s > 0` on a signed char is
  "1 to 127".
- **Delimiter search** (`Delimiters.dfy`): `split_on_bdry` over buckets against a search
  of the plain byte string. `apr_strmatch` is "the first full occurrence".
- **Headers** (`HeaderGrammar.dfy`, `HeaderParsers.dfy`, `HeaderAttributes.dfy`,
  `AttributeLaws.dfy`): a byte machine with its grammar, the parser class with its three
  counters that refines the machine, attribute lookup, and what it answers.
- **Multipart** (`Multipart.dfy`, `MultipartProgress.dfy`, `MultipartSteps.dfy`,
  `MultipartOutcome.dfy`, `MultipartHopes.dfy`, `MultipartParsers.dfy`, `MultipartRuns.dfy`,
  `PartKinds.dfy`, `FormData.dfy`): the nine-state machine with its nested parsers.
  `Multipart` says how a message is printed, `PartKinds` what printed headers make of a
  part. `MultipartProgress.Expect` says, for every state, what a parser that
  is in the middle of a printed message still has to see; each step of the machine keeps
  it. A `Hope` carries that view through the methods as a ghost argument; when it is off,
  the contracts hold for any input at all. `MultipartOutcome.Outcome` says what a body
  that need not be printed comes to, read in one.
- **Codecs** (`Charsets.dfy`, `UrlCodec.dfy`, `EscapeLaws.dfy`, `UrlDecoders.dfy`,
  `Quoting.dfy`): what is decoded and what escapes mean, and the decoders at work in one
  memory, in place or not.
- **Urlencoded** (`QueryStrings.dfy`, `UrlMachine.dfy`, `UrlWords.dfy`, `UrlAgreement.dfy`,
  `UrlParsers.dfy`): the batch parser, the streaming one as a byte machine and word by
  word, when they agree, and the class that refines the machine.
- **Cookies** (`CookieGrammar.dfy`, `CookieLaws.dfy`, `CookieFaults.dfy`,
  `CookieRoundTrip.dfy`, `Cookies.dfy`): what the parser computes on the rest of a header,
  laws about it, where it picks up again behind a fault, and the scanning loops.
- **Spool and filter** (`Writers.dfy`, `Spool.dfy`, `Histories.dfy`, `FilterLaws.dfy`,
  `InputFilter.dfy`): partial writes, the brigade that spills into a file, where the bytes
  of a body went, the laws of one call and of runs, and the Apache 2 input filter that
  keeps them.

Tables are lists of rows with case-insensitive first lookup. The outside world (what
upstream delivers, how much `writev` writes, whether a file can be created, what a parser
answers to the filter) is a parameter or an arbitrary choice, so the results hold for all
of it.

## Where the code differs from its description

- Charset recognition: the comment says that a string with control characters that is not
  UTF-8 is cp1252. E0 80 is answered with latin1, because the byte that breaks a sequence
  is not looked at again. `Charsets.DivineAsDocumented` says exactly when the answer is the
  documented one.
- A cookie whose last attribute is refused is lost when no separator follows;
  `CookieLaws.LostExactly` says on which headers (`CookieLaws.LastCookieLost` is one).
- A comma between cookies ends the `$Version` of the header, where section 4.3.4 of RFC 2109
  gives it to all of them; `CookieRoundTrip.HeaderRoundTrip` says which headers come back
  (`CookieRoundTrip.CommaEndsVersion` shows one that does not).
- The streaming parser ends a name only at `=`, so a word without one is joined to the next,
  or dropped at the end (`UrlMachine.BareNameIsDropped`), where the batch parser keeps it.
  `UrlAgreement.AgreesExactly` says on which bodies they agree.
- A word that ends in an unfinished escape puts the streaming parser in error with the
  status that elsewhere asks for more input. `UrlMachine.UnfinishedEscapeIsAnError` says
  exactly when a word does, and `UrlWords.RefusedExactly` which bodies end that way.
- `%u` with a digit and then something else is not refused at once: the decoder waits for
  six bytes before it looks at the second digit. `EscapeLaws.UnfinishedExactly` says on
  which bytes decoding ends unfinished.
- The input filter passes line and exhaustive reads by its spool, so bytes can overtake
  what was prefetched (`InputFilter.LineOvertakes`); `InputFilter.Run` says exactly when.

## Model

| member | source | states |
|---|---|---|
| Brigades.SplitKeepsStream | library/parser_multipart.c:200-201 | cutting a bucket moves no byte |
| Brigades.Brigade.Split | library/parser_header.c:55-66 | apr_bucket_split cuts one bucket in two and leaves the byte stream alone |
| Brigades.Brigade.MoveFirstTo | library/parser_multipart.c:134-207 | the first bucket leaves one brigade and ends the other |
| Brigades.Brigade.DeleteFirst | library/parser_multipart.c:166-172 | deleting buckets takes exactly their bytes off the front |
| Brigades.Brigade.Concat | library/parser_multipart.c:289 | the other brigade is emptied and its buckets follow, unless EOS is already there |
| Delimiters.CutExtends | library/parser_multipart.c:112-209 | bytes that arrive later do not move a hit, and can only lengthen what is passed over |
| Delimiters.CutResumes | library/parser_multipart.c:112-209 | searching the kept remainder plus new bytes continues the search of the whole, for any delimiter |
| Delimiters.CutMeaning | library/parser_multipart.c:112-209 | the place where a search stops is the first occurrence, or else starts the longest suffix that is a proper prefix of the delimiter |
| Delimiters.Index | library/util.c:92-114 | apreq_index returns the least full match, or in partial mode the least match up to the end of the buffer |
| Delimiters.BucketIndex | library/parser_multipart.c:181-193 | the precompiled pattern with its tail check returns the index of the plain search, for every bucket |
| Delimiters.SplitOnBdry | library/parser_multipart.c:112-209 | success: out gained exactly the bytes before the first occurrence; incomplete: no occurrence, and the brigade keeps the longest suffix that may begin one; EOF only at EOS |
| Delimiters.SplitIsOneShot | library/parser_multipart.c:112-209 | the outcome of one call is the one-shot answer for the bytes it was given |
| Delimiters.SearchIsChunkIndependent | library/parser_multipart.c:112-209 | a search resumed over any pieces finds what one search of the joined bytes finds, with the same bytes before and after |
| Delimiters.KeptIsFixed | library/parser_multipart.c:112-209 | what a miss keeps back is kept back again when nothing arrives |
| Delimiters.StartString | library/parser_multipart.c:71-109 | whether the brigade begins with the string, may still, cannot, or ended before it |
| HeaderGrammar.StepKeepsInv | library/parser_header.c:204-437 | every byte keeps finished lines well formed and the current line a beginning of one |
| HeaderGrammar.RunAccounts | library/parser_header.c:204-437 | in every reachable state the finished lines, the current line and what is left are the bytes read, in order |
| HeaderGrammar.BlockParses | library/parser_header.c:180-446 | a well-formed block followed by an empty line completes with exactly its headers and hands the rest back |
| HeaderGrammar.OnlyBlocksParse | library/parser_header.c:180-446 | conversely, whatever completes is such a block with at least one header, an empty line and the rest |
| HeaderParsers.Take | library/parser_header.c:98-126 | the do-while loops take whole buckets and end exactly at the counted length, so their assertions hold |
| HeaderParsers.CopyValue | library/parser_header.c:128-154 | the value without CR and LF fits the allocated length and is copied whole, up to the final LF |
| HeaderParsers.HeaderParser.SplitLine | library/parser_header.c:55-66 | a bucket boundary is made behind the current byte without moving the stream |
| HeaderParsers.HeaderParser.ConsumeLine | library/parser_header.c:68-175 | the buckets of the finished line give its name and its unfolded value |
| HeaderParsers.HeaderParser.Char | library/parser_header.c:225-423 | one byte in any state: the counters stay the lengths of name, gap and value and the bucket boundaries stay at their ends, while the machine takes its step |
| HeaderParsers.HeaderParser.HandBack | library/parser_header.c:425-437 | exactly the bytes behind the empty line go back to the caller |
| HeaderParsers.HeaderParser.EndOfInput | library/parser_header.c:213-217 | EOS completes the block and hands the unfinished line back |
| HeaderParsers.HeaderParser.Parse | library/parser_header.c:180-446 | one call is a run of the machine over its bytes: rows, status and bytes handed back; a failed parser answers APREQ_ERROR_GENERAL |
| HeaderParsers.CallDecides | library/parser_header.c:180-446 | before its end a well-formed block never fails, and it completes only behind its empty line |
| HeaderParsers.ParseBlock | library/parser_header.c:180-446 | for any calls and buckets the table is the list of names and unfolded values, and the completing call returns exactly the bytes after the empty line |
| AttributeLaws.PrintedAttributes | library/util.c:845-1005 | a printed list of attributes, each quoted, bare or without a value, with optional blanks around bare ones, answers every lookup as the list itself, whatever follows a CR, LF or NUL |
| AttributeLaws.BareValueIs | library/util.c:961-987 | a bare value is the bytes up to a semicolon, comma, CR, LF, NUL or the end, without the blanks around them; a control character in it is an error |
| AttributeLaws.QuotedValueIs | library/util.c:907-959 | a quoted value is what stands between its quotes, other quotes being behind a backslash, with blanks allowed around it |
| AttributeLaws.NameIs | library/util.c:860-894 | a name is what stands in front of the equal sign, or of the end of the attribute, without surrounding blanks, if that is one word without control characters; else the first byte that breaks it is the error |
| AttributeLaws.BadNameIs | library/util.c:896-905 | in front of an equal sign there has to be a name, and it has to be a token |
| HeaderAttributes.FindName | library/util.c:860-894 | the loop finds the name without surrounding blanks, or the error at hand |
| HeaderAttributes.FetchValue | library/util.c:907-990 | quoted or bare, the value the scan specifies |
| HeaderAttributes.HeaderAttribute | library/util.c:845-1005 | status and value are those of the specified scan, for every header |
| Charsets.LeastIsTheMask | library/util.c:220-231 | the least admissible second byte is what the minimality mask tests |
| Charsets.CharsetDivine | library/util.c:240-321 | the loop answers what the recognition function specifies |
| Charsets.DivineIsExact | library/util.c:240-321 | ASCII exactly when all bytes are below 80; UTF8 exactly for other strings of ASCII bytes, minimal sequences of the bit-pattern table and lone FE or FF |
| Charsets.Rfc3629IsText | library/util.c:240-321 | all non-ASCII text of section 4 of RFC 3629 is answered with UTF8 |
| Charsets.DivineAsDocumented | library/util.c:220-321 | the answer is the one the comment documents exactly if the only control character is not the second byte of an overlong sequence |
| Charsets.HiddenControl | library/util.c:220-321 | E0 80 is a string for which it is not |
| Charsets.Cp1252ToUtf8 | library/util.c:190-217 | the loop writes the UTF-8 form of each character in order |
| Charsets.BmpIsTheCodePage | library/util.c:149-187 | a byte stands for its code point in the table of code page 1252, and any other for itself |
| Charsets.ConversionIsText | library/util.c:190-217 | the output is well-formed, at most three times as long, and ASCII only if the input is |
| Charsets.ConversionIsRecognised | library/util.c:190-321 | recognition answers ASCII for converted ASCII and UTF8 for every other conversion |
| Charsets.ConversionIsInjective | library/util.c:149-217 | no two strings have the same conversion |
| Multipart.BoundaryIs | library/parser_multipart.c:213-267 | the boundary is the nonempty value of the boundary attribute behind the first semicolon that no NUL precedes, and there is none otherwise |
| MultipartProgress.CleanCut | library/parser_multipart.c:546-553 | content that does not hold the delimiter is cut exactly at its end |
| MultipartProgress.LeafReopened | library/parser_multipart.c:362-397 | a part without a body gets its CRLF back, so that the next search sees a whole delimiter; other content is left alone |
| MultipartProgress.NestedReopened | library/parser_multipart.c:362-397 | a nested message is not taken for an empty part |
| MultipartProgress.NextlineStep | library/parser_multipart.c:310-336 | a delimiter line ends the message exactly when it begins with two dashes |
| MultipartProgress.HeaderStep | library/parser_multipart.c:340-359 | a part's headers are complete exactly when the block is, and the body follows |
| MultipartProgress.PostHeaderLeaf | library/parser_multipart.c:362-542 | a field or file part leads to the state that reads its content |
| MultipartProgress.PostHeaderNested | library/parser_multipart.c:405-455 | a multipart part leads to a fresh nested parser with its boundary, name and level |
| MultipartProgress.LeafSearch | library/parser_multipart.c:546-650 | the content read so far and still to come stays the part's content, and a hit completes it |
| MultipartProgress.PartDone | library/parser_multipart.c:590-593 | behind a part's delimiter the rest of the message is next |
| MultipartProgress.MixedDone | library/parser_multipart.c:657-664 | behind a nested message the outer boundary is next |
| MultipartParsers.MultipartParser.constructor | library/parser_multipart.c:213-267 | a new context: MFD_INIT, empty brigades, its boundary and level |
| MultipartParsers.MultipartParser.Search | library/parser_multipart.c:112-209 | a search moves what it passes over to the collecting brigade and nothing else |
| MultipartParsers.MultipartParser.DoInit | library/parser_multipart.c:295-307 | for any input, the preamble and nothing else goes back to the caller when the boundary is found |
| MultipartParsers.MultipartParser.DoNextline | library/parser_multipart.c:310-336 | the rest of the delimiter line ends the message, starts a part, or waits; EOS ends the message with success |
| MultipartParsers.MultipartParser.DoHeader | library/parser_multipart.c:340-359 | the header parser's status and leftovers decide the next state |
| MultipartParsers.MultipartParser.DoPostHeader | library/parser_multipart.c:362-542 | the missing CRLF is put back and the part's kind sets up the next state |
| MultipartParsers.MultipartParser.DoParam | library/parser_multipart.c:546-601 | a complete field adds one row with its bytes, headers, charset and taint mark |
| MultipartParsers.MultipartParser.DoUpload | library/parser_multipart.c:604-653 | file contents accumulate over calls and add one row when complete |
| MultipartParsers.MultipartParser.RunNested | library/parser_multipart.c:657-660 | the nested parser runs on this parser's input and gives its leftovers back |
| MultipartParsers.MultipartParser.Settle | library/parser_multipart.c:660-672 | its answer resumes the search for the outer boundary, waits, or is an error |
| MultipartParsers.MultipartParser.Turn | library/parser_multipart.c:291-680 | one pass through the switch keeps a message under way, only appends rows, conserves weight, goes down in the measure, and leaves the outcome of what is ahead as it was |
| MultipartParsers.MultipartParser.Parse | library/parser_multipart.c:269-681 | every call terminates; held plus returned bytes never grow beyond what came in; rows are only appended; a printed message stays under way until it is complete with its rows; whatever is still to come, the rows and status it will end with are those it had before the call |
| MultipartHopes.EnteredWeighs | library/parser_multipart.c:382-393 | putting two bytes back in front of the input does not raise the termination measure |
| MultipartRuns.NestsAtMostEightDeep | library/parser_multipart.c:411-414 | at most eight parsers are nested in each other |
| MultipartRuns.Open | library/parser_multipart.c:213-288 | without a boundary in the content type there is no context |
| MultipartRuns.ParseMessage | library/parser_multipart.c:269-681 | any printed message, nested ones included, in any calls and buckets, gives success and exactly its rows; what follows the closing line comes back |
| MultipartOutcome.SearchAhead | library/parser_multipart.c:112-209 | where a call leaves its search, searching what it keeps and what is to come goes on with the search of it all |
| MultipartOutcome.HeadersAhead | library/parser_multipart.c:340-359 | the headers read so far and the bytes to come make the headers of the whole part |
| MultipartRuns.ParseAnyBody | library/parser_multipart.c:269-681 | for any bytes at all that begin with the boundary and have no nested message among them, rows and status depend on the bytes alone, not on calls or buckets |
| PartKinds.FormDataKind | library/parser_multipart.c:461-490 | with a Content-Type that is absent or not multipart, and any other headers, form-data makes exactly a field with its name, or a file with its name and filename, and an error without a name |
| PartKinds.ListFileKind | library/parser_multipart.c:495-514 | whatever other headers it has, a file disposition inside a list makes exactly a file under the list's name, and an error without a filename |
| PartKinds.OtherKind | library/parser_multipart.c:516-540 | a part with neither disposition is an upload named by its Content-ID |
| PartKinds.NestedKind | library/parser_multipart.c:405-455 | a multipart part without a disposition makes a nested message named by its Content-ID below level eight, and an error there or without a boundary |
| PartKinds.NamedNestedKind | library/parser_multipart.c:405-455 | with a disposition it has the name that gives, or else its Content-ID |
| PartKinds.LedAttributes | library/util.c:845-1005 | a printed list behind a leading word such as form-data answers every lookup as the list |
| PartKinds.BoundaryFound | library/parser_multipart.c:213-267 | the boundary of a printed content type, quoted or bare, is found |
| FormData.FormKind | library/parser_multipart.c:461-490 | printed form-data headers, with further headers around, make a field, or a file with its filename |
| FormData.FileKind | library/parser_multipart.c:495-514 | a printed file header inside a list, with further headers around, makes a file under the list's name |
| FormData.ListKind | library/parser_multipart.c:405-455 | a printed multipart header makes a nested message below level eight, and an error there |
| FormData.ParseForm | library/parser_multipart.c:269-681 | any list of fields, files and lists of files printed as in section 5.1.1 of RFC 2046, with further headers such as a Content-Type in any part and the boundary quoted or bare, comes back with exactly those names, filenames, headers and contents, in order, under every chunking; bytes behind the closing line are handed back |
| UrlCodec.Decode | library/util.c:351-427 | decoded length never exceeds what was read, and success reads everything |
| UrlCodec.DecodeContinues | library/util.c:351-427 | decoding a piece and then its remainder with the next piece is decoding them joined; a bad piece decides at once |
| UrlCodec.StopsExactly | library/util.c:351-427 | decoding ends unfinished, in a bad escape or in a bad character exactly if the bytes at some place call for it and all in front of them can be decoded |
| EscapeLaws.DigitValue | library/util.c:118-136 | the i-th character of 0123456789abcdef and of 0123456789ABCDEF has value i |
| EscapeLaws.TextDecodes | library/util.c:351-427 | any text of plain bytes, plus signs, two-digit escapes with the case of each digit chosen, and wide ones decodes to what its symbols mean |
| EscapeLaws.OnlyTextDecodes | library/util.c:351-427 | and whatever decodes with success is such a text |
| EscapeLaws.WideMeans | library/util.c:376-405 | a wide escape of value c becomes a UTF-8 form of code point c |
| EscapeLaws.UnfinishedExactly | library/util.c:366-405 | what is not yet an escape is unfinished exactly if it is the beginning of one, or a wide one that waits in vain, and otherwise broken |
| UrlCodec.UrlEncode | library/util.c:496-525 | the loop writes the encoding |
| UrlCodec.EncodeRoundTrip | library/util.c:351-525 | every byte string survives encoding and decoding, within three times its length |
| EscapeLaws.EncodesAs | library/util.c:496-525 | unreserved bytes stay, a space becomes a plus sign, and every other byte an escape of two upper-case digits of its value |
| UrlCodec.EncodedHasNoSeparators | library/util.c:496-525 | no separator, equal sign or NUL comes out of the encoder |
| UrlDecoders.ReadEscape | library/util.c:366-405 | the tests on the bytes in memory decide as specified between two-digit, wide, unfinished and broken escapes |
| UrlDecoders.UrlDecode | library/util.c:351-427 | with the destination at, before or apart from the source: status, bytes and amount read are those of decoding, an unfinished escape is moved behind, and nothing else changes |
| UrlDecoders.Carry | library/util.c:473-484 | the unfinished escape and the next piece become one piece at the destination |
| UrlDecoders.Decodev | library/util.c:453-493 | for every cut into pieces, empty ones included, status, length and bytes are those of decoding the joined string |
| QueryStrings.MergeCharsets | library/param.c:106-121 | the wider charset of name and value |
| QueryStrings.WordStopsExactly | library/param.c:63-125 | a word is refused exactly for a missing name, a value that cannot be decoded, or a name that cannot behind a value that can, with that status; any other has a tainted row with what name and value decode to, and the wider of the charsets recognised in them |
| QueryStrings.ParamDecode | library/param.c:63-125 | a word at its offsets is decoded as its raw name and raw value |
| QueryStrings.ParamEncode | library/param.c:128-139 | name=value encoded, within three times the length and one |
| QueryStrings.ParseQueryString | library/param.c:141-186 | the scanning loop adds the rows of the words in order and stops at the first that cannot be decoded |
| QueryStrings.QueryRoundTrip | library/param.c:63-186 | encoded parameters joined with & or ; parse to the list they were printed from, each row tainted and with the wider of the charsets of its name and value |
| QueryStrings.WordMeans | library/param.c:151-171 | a word's name ends at the first equal sign behind its first byte; without one it has no value |
| QueryStrings.QueryOfWords | library/param.c:141-186 | any raw words joined with separators add their rows in order, empty ones nothing, up to the first that is refused, whose status is the answer |
| UrlWords.StreamsWord | library/parser_urlencoded.c:159-273 | on any body the streaming parser takes all up to the first equal sign for a name, adds the word or stops in error, and goes on behind the separator |
| UrlWords.RefusedExactly | library/parser_urlencoded.c:159-273 | any body ends in error with a status exactly if its words can be decoded up to one that is refused for that reason |
| UrlAgreement.StreamRefinesBatch | library/parser_urlencoded.c:159-273 | for every body of name=value words, with any separators behind the last, the streaming machine adds the rows of the batch parser and stops where it stops |
| UrlAgreement.AgreesExactly | library/parser_urlencoded.c:159-273 | on NUL-free bodies the two parsers agree exactly if all words are name=value up to the end, up to one that cannot be decoded, or up to one whose raw bytes give both the same reason to refuse |
| UrlAgreement.OnlyFieldsAgree | library/parser_urlencoded.c:159-273 | where the batch parser succeeds, that condition is that the body is nothing but name=value words and separators behind them |
| UrlAgreement.NamesDiffer | library/parser_urlencoded.c:220-236 | where the streaming parser takes separators into a name, its row is not the one the batch parser adds |
| UrlMachine.BareNameIsDropped | library/parser_urlencoded.c:189-192 | a last word without an equal sign is a row to the batch parser and nothing to the streaming one |
| UrlMachine.UnfinishedEscapeIsAnError | library/parser_urlencoded.c:242-253 | at either separator and at EOS, a word puts the parser in error with APR_INCOMPLETE exactly if it has a name and its value ends in an unfinished escape, or its name does and the value can be decoded |
| UrlParsers.TakePieces | library/parser_urlencoded.c:78-117 | the loops over buckets end exactly at the counted length and leave the separator out |
| UrlParsers.DecodePieces | library/parser_urlencoded.c:119-131 | decoding the bucket pieces is decoding their bytes joined |
| UrlParsers.SplitUrlword | library/parser_urlencoded.c:49-157 | the counted buckets give the word's row or its refusal |
| UrlParsers.UrlParser.NameByte | library/parser_urlencoded.c:221-236 | the name state: counters, buckets and machine stay in step |
| UrlParsers.UrlParser.ValueByte | library/parser_urlencoded.c:238-265 | the value state: the same, and at a separator the word is taken and its buckets are gone |
| UrlParsers.UrlParser.Parse | library/parser_urlencoded.c:159-273 | one call is a run of the machine over its bytes, with EOS as the end of the last value |
| UrlParsers.ParseCalls | library/parser_urlencoded.c:159-273 | for any body at all, rows and final status depend on the bytes alone, not on calls or buckets, and a status other than success is the one the body is refused for |
| UrlParsers.ParseBody | library/parser_urlencoded.c:49-273 | however a NUL-free body is cut, status and rows are those of apreq_parse_query_string exactly if the body meets the condition above, and they are for all name=value bodies |
| Quoting.CheckQuoted | library/util.c:527-545 | the loop decides is_quoted as specified |
| Quoting.QuoteString | library/util.c:560-595 | the loop writes the quoted form |
| Quoting.QuoteStringOnce | library/util.c:547-558 | what is quoted already is left alone, and anything else is quoted |
| Quoting.QuotedExactly | library/util.c:527-545 | a string counts as quoted exactly if it is plain and backslashed characters between quotes |
| Quoting.QuotedIsQuoted | library/util.c:527-595 | every nonempty quoted string is recognised as quoted, within 2n+2 bytes |
| Quoting.QuoteOnceIsIdempotent | library/util.c:547-558 | quoting once twice is quoting once, on every byte string |
| Quoting.QuoteIsInjective | library/util.c:560-595 | no two strings are quoted alike |
| CookieLaws.OnlyPairsRead | library/cookie.c:172-290 | where get_pair succeeds, there is a name, an equal sign and a bare or quoted value, with nothing but blanks around them, and these are what it has read |
| CookieFaults.NoPairIs | library/cookie.c:172-226 | get_pair finds no pair exactly if no equal sign stands in front of the first separator, NUL or end; it stops there, with NOTOKEN exactly if there is a name |
| CookieFaults.UnclosedIs | library/cookie.c:228-254 | a pair whose quote is not closed has read all up to a NUL or the end |
| CookieFaults.JunkIsSkipped | library/cookie.c:294-426 | junk without an equal sign in front of a separator costs no cookie: the header has exactly the cookies of what is behind it |
| CookieFaults.JunkBehindCookie | library/cookie.c:294-426 | the same behind a cookie, which is kept and whose version ends there |
| CookieLaws.BadAttributeIs | library/cookie.c:50-132 | an attribute ends the pair it belongs to exactly if it has no name or is a version without a digit |
| CookieRoundTrip.AttrSets | library/cookie.c:50-132 | Path, Domain, Port, Comment and CommentURL each set their own field, and no other |
| CookieRoundTrip.SettingSets | library/cookie.c:50-132 | so do the other attributes: expires and max-age, secure and HttpOnly, and a version whose digit is set |
| CookieRoundTrip.OffIs | library/cookie.c:115-129 | no value, one that begins with 0, and a beginning of off in any case switch secure and HttpOnly off, and anything else on |
| CookieRoundTrip.VersionIs | library/cookie.c:76-86 | the first digit of a version decides, in the two bits the cookie has for it; without one it is an error |
| CookieRoundTrip.NoSetting | library/cookie.c:57-132 | any other attribute, and Value, is not implemented and changes nothing; a dash or dollar in front of a name makes no difference |
| CookieLaws.ResyncIsFresh | library/cookie.c:301-305 | behind a comma or an error the rest is parsed as a header of its own, added to what is there |
| CookieLaws.CookiesInOrder | library/cookie.c:294-426 | every cookie is added at most once, in header order, with the name and value at its place; all are on success, and otherwise only the last can be missing |
| CookieLaws.LostExactly | library/cookie.c:294-426 | a pair that was read as a cookie is missing in the end exactly if the header ends in a refused attribute of it with no comma or semicolon behind; then only that one is missing, the last |
| CookieLaws.LastCookieLost | library/cookie.c:405-410 | a=1;$ is such a header |
| CookieRoundTrip.PairReads | library/cookie.c:172-290 | a written name=value is read as that name and value, with or without its quotes |
| CookieRoundTrip.QuotedPairReads | library/cookie.c:228-254 | get_pair takes the quoted form of a nonempty value apart again, exactly if it has no NUL |
| CookieRoundTrip.AttrIgnoresCase | library/cookie.c:50-132 | attribute names are matched without regard to case |
| CookieRoundTrip.HeaderParses | library/cookie.c:294-426 | cookies printed as in section 4.3.4 of RFC 2109, with bare values or quoted strings, joined with commas or semicolons, parse to the same cookies and attributes in order, each with the version in force, which a comma ends; an attribute without a version in force is a mismatch that loses nothing |
| CookieRoundTrip.HeaderRoundTrip | library/cookie.c:294-426 | they come back with success and with the version of the header exactly if attributes stand behind a $Version only and no comma does |
| CookieRoundTrip.CommaEndsVersion | library/cookie.c:301-373 | in $Version=1; a=b, c=d the second cookie has no version |
| Cookies.FindPair | library/cookie.c:172-290 | the scanning loops read the specified pair and stop at the specified place |
| Cookies.ParseCookieHeader | library/cookie.c:294-426 | the goto-driven scan terminates with the specified status and adds the specified cookies to the jar |
| Writers.Fwritev | library/util.c:701-771 | whatever a write manages, the file has grown by a beginning of the vector; on success a piece is gone and the pending pieces are exactly the unwritten rest; an error is that of a write that failed, or that wrote nothing of a nonempty first piece |
| Writers.Fwrite | library/util.c:1181-1237 | on success the file has exactly the brigade's bytes, in order, and wlen is their number; there is no error without such a write |
| Spool.ExtendLast | library/util.c:1149-1166 | the loop cuts file buckets at the limit |
| Spool.GrowKeepsBounds | library/util.c:1149-1168 | the ranges stay contiguous, within the limit, and end behind the new data in a spool bucket |
| Spool.GrowKeepsText | library/util.c:1149-1168 | their contents are the old ones and then the new data |
| Spool.Spooled.MemoryIsBounded | library/util.c:1089-1101 | bytes in memory are none, or fewer than the limit |
| Spool.Spooled.StartSpool | library/util.c:1103-1120 | everything moves to one new file, or nothing changes |
| Spool.Spooled.Concat | library/util.c:1067-1179 | success appends exactly the incoming bytes and EOS; failure changes no content; behind EOS nothing is added; no call fails while all there is stays below the limit |
| Spool.Spooled.TakeFront | module/apache2/filter.c:362-371 | partition and move give the first n bytes, or all there are, and EOS exactly when it comes next |
| Spool.SpoolAll | library/util.c:1067-1179 | over any run the contents are all that came in, all in memory below the limit or in ranges that cover the file, and no call fails while all stays below the limit |
| FilterLaws.ParsesExactly | module/apache2/filter.c:111-184 | a body is parsed exactly if it is no GET, its length, where given, is a number within the limit, and the filter has a parser or the content type has one; the other statuses stand exactly for a GET, a length that is none, one beyond the limit, and a missing header or parser |
| InputFilter.Filter.Start | module/apache2/filter.c:111-184 | an uninitialised filter takes its status from the request, any other keeps it |
| InputFilter.Filter.PrefetchCall | module/apache2/filter.c:255-325 | a prefetch by a parser at work spools exactly what upstream gives and feeds it to the parser within the limit; a refusal, or a failure of the spool, which there is none of below the brigade limit, is kept for the reader; any other prefetch does nothing |
| InputFilter.Filter.PassThrough | module/apache2/filter.c:345-347 | a line or exhaustive read gets exactly what upstream gives, whatever the spool holds, and nothing else changes |
| InputFilter.Filter.ReadCall | module/apache2/filter.c:329-404 | a byte read gets the first bytes of a nonempty spool, as many as asked for, with EOS when it comes next; else the failure of a prefetch; else exactly what upstream gives, which the parser gets too while it works and the limit is kept |
| FilterLaws.ReadAdvances | module/apache2/filter.c:329-404 | a byte read takes its answer off the front of what is to come and leaves less to do |
| FilterLaws.ParserGotAll | module/apache2/filter.c:255-404 | over any run without bytes read past the filter, a parser still at work has got all that upstream gave |
| InputFilter.Drain | module/apache2/filter.c:329-404 | byte reads of any sizes end, and return the spool and the rest of the body in order up to EOS, unless a prefetch had failed or the filter has left the chain |
| Histories.TracksInOrder | module/apache2/filter.c:255-404 | the bytes sent down and those in the spool are at their places in the stream exactly if none overtook the spool, and are then the stream itself |
| InputFilter.Run | module/apache2/filter.c:255-404 | over any interleaving in any modes every call keeps its law and no byte is lost or doubled; what was read from the filter, the spool and what upstream still has are the body in order exactly if no line or exhaustive read got bytes while the spool held some; the parser got no more than the limit, and a beginning of the body exactly if it was not fed behind bytes such reads took; all that was read, if it is still at work and they took none |
| InputFilter.LinePastSpool | module/apache2/filter.c:345-347 | a line read behind a prefetch overtakes what was prefetched, without any failure of the spool |
| InputFilter.LineOvertakes | module/apache2/filter.c:345-347 | there is such a run: a new filter with a body of three buckets |

## Left out

- HeaderAttributes.Attribute: an attribute without a value is reported with an empty value where the source reports a null one.
- MultipartParsers.MultipartParser.DoUpload: the upload brigade is its bytes; how apreq_brigade_concat spools them is the subject of Spool, and the call that a failure of spooling ends with its status is not modelled.
- MultipartParsers.MultipartParser.DoInit: chunk-independence of the preamble search is not stated, because the delimiter there has no leading CR and may overlap itself; its bytes are conserved.
- MultipartRuns.ParseAnyBody: bodies with a preamble, for that reason, and bodies with nested messages; printed messages may have them (ParseMessage).
- UrlParsers.UrlParser.Parse: no call is made after the one that brought EOS; the source would count on with the dropped name's length.
- CookieGrammar.CookieAttr: expires and max-age keep their text, because dates depend on the clock; a version whose value was unescaped and has no digit reads one byte of scratch memory in the source and is a bad sequence here.
- Writers.Fwrite: the branch for a brigade that itself ends in a spool bucket.
- Spool.Spooled.Concat: the call with one brigade as both arguments, and buckets of unknown length.
- FilterLaws.InitialStatus: a Content-Length beyond 64 bits, which strtoll clamps.
- InputFilter.Run: conservation is claimed unless spooling failed, which loses data in the source too; runs end when the filter has removed itself.
- Status polls with a null brigade: they read a status and change nothing.
- apreq_decode with source and destination the same: the length it reports leaves out the skipped prefix; url_decode in place is modelled.
- Data behind an EOS bucket: dropped when brigades are joined.
- Hooks, pools, bucket types that change on read, read errors, logging, environment access, interactive CGI, cookie serialisation, the XML parser, filter chain relocation, EBCDIC branches and locale-dependent character classes.
- Counters that overflow their integer types: lengths are unbounded here, apart from the file bucket limit.
