# Verification of libzeep

libzeep is an XML, JSON and HTTP library written in C++. These modules model its scanners, state machines
and pointer structures and prove what they are for.

- **Content models of a DTD** (`ContentModel`, `ValidatorState`, `ValidatorSoundness`, `Determinism`,
  `ValidatorCompleteness`, `ValidatorRuns`, `Restarting`, `ValidatorNecessity`, `ValidatorExactness`,
  `ValidatorFindings`, `Validator`). A tree of state objects is asked name by name whether a child element is
  allowed. `Matches(c, w)` says that `w` is a word of the model `c`, `Prefix(c, w)` that it begins one, and
  `RunOf(c, w)` is the outcome of asking for the names of `w` in turn. `OneUnambiguous` is the determinism
  that appendix E of XML 1.0 asks for, stated on words whose names are marked with their places in the model.
  `Declared(c)` holds of the models that the DTD parser can build.
- **Attribute values** (`AttributeValue`, `AttributeMeaning`, `AttributeGuard`, `AttributeParser`,
  `AttributeReferences`, `XmlSpaces`, `XmlEscape`). The scanner runs over a stack of sources while it expands entities; `Unfold` is what sections
  3.3.3 and 4.1 of XML 1.0 say about replacement text, without a stack and without a guard. `AttributeReferences`
  says on literal characters what each kind of reference and text comes to.
- **JSON** (`JsonElement`, `JsonLexer`, `JsonParser`, `JsonTokens`, `JsonRoundTrip`, `JsonStrings`, `JsonKeys`,
  `JsonExact`, `JsonForms`, `JsonGrammar`, `JsonSpaces`, `JsonMembers`, `JsonLoose`, `JsonScanner`, `JsonReader`,
  `JsonWriter`, `ElementOrder`, `Utf8`, `Text`). The printer, the scanner with its one-character pushback, the
  recursive-descent parser, and the order of elements. A `Form` is the concrete syntax of an element: `Tokens` lists
  its tokens, `Value` is what it stands for, and `Spaced` puts white space around them. `Numerals` says what it is to
  write a number in the digits of a literal alphabet.
- **HTTP messages** (`HttpParser`, `HttpRoundTrip`, `HttpConnection`, `HttpChunked`, `HttpMessageParser`,
  `HttpReply`, `HttpStandard`, `HttpLines`, `HttpFields`, `HttpChunkForms`). The resumable byte-at-a-time parser, the connection loop around it, and the reply object that
  writes messages, plain, chunked or streamed. The last four
  state the laws on literal bytes, with the input that is refused.
- **XPath axes** (`XPathAxes`): nodes are paths from the root, walks are lists of paths.
- **Sibling lists** (`SiblingList`, `TextNodes`): nodes linked on the heap, with their lists as sequences.
- **Hashes, keys and base64** (`Hash`, `KeyDerivation`, `Bits`, `Base64`, `Base64Standard`). The compression function of a hash
  is a parameter.
- **Patterns and numbers** (`GlobMatch`, `GlobGroups`, `Glob`, `DecimalRounding`).

`Options`, `Streams` and `Sequences` hold what the others share. Where the source updates an object or a buffer
step by step there is a class or a method with a loop; it is proved equal to a function, and the laws are proved
about the function.

## Findings

Properties that the code does not have, each with an input and the exact condition under which it holds.

| property | fails on | holds exactly when | source |
|---|---|---|---|
| A deterministic content model accepts every prefix of its words. | `(a+,b)` on `a b` (`ValidatorFindings.PlusDoesNotYield`) and `((a?\|b),c)` on `c` (`ValidatorFindings.ChoiceDoesNotYield`) | `Reliable(c)`, a recursive condition on the model alone (`ValidatorExactness.ReliableIffComplete`) | lib-xml/src/doctype.cpp:228-237, lib-xml/src/doctype.cpp:408-417 |
| `done()` says whether the content is complete; the element parser relies on it to report missing children. | `(a,b)` after `a` (`ValidatorFindings.DoneTooSoon`) | Once a name was accepted it is always true; before that it is right (`Validator.Validator.Done`) | lib-xml/src/parser.cpp:3775 |
| A request is read back and the parser stops at its end. | A POST with `Content-Length: 0` and then `Connection: close` (`HttpRoundTrip.StallingRequest`) | Unless the payload is empty, the verb is POST or PUT, and the headers close last (`HttpRoundTrip.RequestRoundTrip`) | lib-http/src/message-parser.cpp:131-158 |
| Content is awaited for as many bytes as were announced. | A POST without a length whose headers close the connection: 2^32 bytes are awaited (`HttpFields.ContentCounted`) | A length above zero was read (`HttpFields.ContentCounted`) | lib-http/src/message-parser.cpp:147-154, lib-http/src/message-parser.cpp:253-275 |
| A length is refused unless it is digits. | `-1` is read as 4294967295 (`HttpFields.NegativeLength`) | Never: any text gives a number (`HttpFields.LengthRead`, `HttpFields.NoLength`) | lib-http/src/message-parser.cpp:131-158 |
| A line that continues a header adds its text behind a space. | Every such line (`HttpFields.FoldedLine`); one of blanks alone swallows the line behind it (`HttpFields.BlankLine`) | Never: no space is put in between | lib-http/src/message-parser.cpp:66-131 |
| A status line without version and three digits is refused. | `HTTP/1`, a carriage return and `7 ` (`HttpLines.BareCodeTaken`) | A point follows the major version (`HttpLines.StatusLineExactly`) | lib-http/src/message-parser.cpp:426-460 |
| A printed string is read back. | The single byte 0x80 (`JsonStrings.LoneByte`) | It is UTF-8 of scalar values other than U+FFFE and U+FFFF (`JsonStrings.StringSurvives`) | lib-json/src/element.cpp:789-812 |
| A printed object is read back. | An object with the key `"` (`JsonRoundTrip.KeyIsNotEscaped`): keys are not escaped | For an object of one member: its key is UTF-8 of scalar values other than U+FFFE and U+FFFF, with no quote, backslash or zero (`JsonKeys.KeySurvives`) | lib-json/src/element.cpp:781 |
| An empty array or object is read back. | `[]` and `{}` come back as null (`JsonRoundTrip.RoundTrip`, `Nullified`) | Never | lib-json/src/parser.cpp:592-630 |
| Base64 with line breaks is read back. | One byte in lines of three (`Base64.TornPadding`) | Unless the data leaves one byte over and a line ends there (`Base64.DecodeEncode`) | lib-http/src/crypto.cpp:280-286 |
| The length asserted at the end of `encode_base64` is the length of the result. | Three bytes in lines of four (`Base64.FullLine`) | Unless there is data and the characters fill their last line (`Base64.AssertionHolds`) | lib-http/src/crypto.cpp:169-170, lib-http/src/crypto.cpp:245 |
| A pattern matches the names it stands for. | `***` on the empty name (`GlobMatch.ThreeStars`) | No two stars stand before something that may stand for nothing (`GlobMatch.DecidesMeaning`) | lib-http/src/glob.cpp:53-63 |
| A character reference stands for its number. | `&#x100000041;` reads as `A` (`AttributeReferences.WrappedReference`) | The number has at most 32 bits; otherwise its low 32 bits are taken (`AttributeReferences.HexReference`, `AttributeReferences.DecimalReference`) | lib-xml/src/parser.cpp:3325-3378 |
| A string escape of two surrogates stands for one character. | Every such pair (`JsonLoose.EscapedPair`) | Never: each half is read as a character of its own | lib-json/src/parser.cpp:473-524 |
| An extension behind the size of a chunk is passed over. | `1;a=b` (`HttpChunkForms.ExtensionRefused`) | Every byte behind the semicolon may stand in a header name (`HttpChunkForms.ReadsSizeLine`) | lib-http/src/message-parser.cpp:177-217 |
| Base64 with characters outside the alphabet is refused. | Four commas (`Base64Standard.CommasDecoded`) | The characters are none of those between the letters of the table (`Base64Standard.StrayCharacters`) | lib-http/src/crypto.cpp:24-161 |
| A node that could not be inserted is unchanged. | Inserting a new node before a node of another list (`SiblingList.StrayNode`): it has a parent from then on | The node had a parent or a neighbour already; otherwise the element stays its parent (`SiblingList.NodeList.Insert`) | include/zeep/xml/node.hpp:836-860 |
| A step collects what is on its axis. | `following-sibling::text()` at an element before a text node (`XPathAxes.UnseenSibling`) | For a context that is an element: no document above it and no text beside it, outside the elements the walk comes to, passes the test (`XPathAxes.MeetsDefinition`) | lib-xml/src/xpath.cpp:473-526 |

## Model

| member | source | states |
|---|---|---|
| ValidatorState.ResetCreates | lib-xml/src/doctype.cpp:97-101 | Resetting a state of any model, whatever happened to it, leaves the state that `create_state` would make. |
| ValidatorState.AllowEmptyIsNullable | lib-xml/src/doctype.cpp:344-357 | `allow_empty` is true of a model exactly when the empty content is a word of it; as `state_choice::allow_empty` does, a choice needs one part that may be empty, a sequence all. |
| ValidatorSoundness.StepSound | lib-xml/src/doctype.cpp:66-432 | For every model: when `allow` accepts a name the names so far still begin a word, and when it refuses and reports done the names before are a word. |
| ValidatorSoundness.RunSound | lib-xml/src/doctype.cpp:461-466 | Every run in which all names are accepted spells a prefix of some word of the model, and the answer (false, true) to any next name means the names so far are a whole word. |
| ValidatorSoundness.AcceptedIsDone | lib-xml/src/doctype.cpp:66-432 | Whoever accepts a name reports done with it, in every model and state, so done says nothing then. |
| ValidatorCompleteness.Yield | lib-xml/src/doctype.cpp:302-342 | In a deterministic model that yields, a part that has read a whole word and cannot read on refuses the next name and reports done, so that the sequence around it moves on. |
| ValidatorCompleteness.Progress | lib-xml/src/doctype.cpp:121-196 | In a reliable deterministic model every name that continues the names so far to some word is accepted, without looking ahead or going back. |
| ValidatorCompleteness.AcceptsExactlyPrefixes | lib-xml/src/doctype.cpp:66-432 | In the model ANY, and in a reliable one-unambiguous model, the names that are accepted in turn are exactly the prefixes of its words. |
| ValidatorCompleteness.AnyAcceptsAll | lib-xml/src/doctype.cpp:50-56 | An element with any content, declared so or not declared, accepts every run of names. |
| ValidatorNecessity.StopsFresh | lib-xml/src/doctype.cpp:395-426 | A fresh state of a model that does not yield at once answers (false, false) to a name that cannot begin a word, though it may be empty. |
| ValidatorNecessity.StopsLater | lib-xml/src/doctype.cpp:208-252 | A reliable model that does not yield later has a word after which every name is answered with (false, false). |
| ValidatorNecessity.StuckGap | lib-xml/src/doctype.cpp:162-196 | Where a repeated model cannot start again there is an accepted word and a name that continues it, which the code refuses without reporting done. |
| ValidatorExactness.ReliableIffComplete | lib-xml/src/doctype.cpp:66-432 | A model as the DTD parser builds it, ANY or deterministic, accepts every prefix of every word if and only if it is reliable; for every other one a word and a refused name are constructed. |
| ValidatorFindings.PlusDoesNotYield | lib-xml/src/doctype.cpp:228-237 | The model `(a+,b)` refuses `b` after one `a`, though `a b` is a word. |
| ValidatorFindings.ChoiceDoesNotYield | lib-xml/src/doctype.cpp:408-417 | The model `((a?\|b),c)` refuses `c`, though it is a word. |
| ValidatorFindings.DoneTooSoon | lib-xml/src/parser.cpp:3775 | After `a` the model `(a,b)` reports done, though `a` is not a word: missing content goes unreported. |
| Validator.CreateState | lib-xml/src/doctype.cpp:480-575 | The tree of state objects made for a model represents the fresh state of that model and shares nothing with older objects. |
| Validator.StateObject.Reset | lib-xml/src/doctype.cpp:81-101 | Resetting an object, whatever its state, leaves the whole tree below it as freshly created. |
| Validator.StateObject.Allow | lib-xml/src/doctype.cpp:66-426 | The virtual `allow` of the object tree returns the answer, and leaves the state, of the function that soundness and completeness are proved about. |
| Validator.Validator.Allow | lib-xml/src/doctype.cpp:461-466 | A name is accepted exactly when the run over all names so far accepts it; then they begin a word, and a refusal that leaves done set means that they are one. In the model ANY, and in a deterministic reliable one, every name that continues them to some word is accepted. |
| Validator.Validator.Done | lib-xml/src/doctype.cpp:468-471 | `done` is true after any accepted name, and before the first exactly when the model may be empty. |
| AttributeMeaning.PiecesAreWritten | lib-xml/src/parser.cpp:3272-3434 | Taking a text apart succeeds with some pieces exactly when these are legal and, written one after the other, give the text: no other reading exists. |
| AttributeMeaning.ScanIsGuarded | lib-xml/src/parser.cpp:3272-3434 | The character-by-character scanner computes, for every entity table, cyclic ones included, the guarded expansion of the pieces of its text. |
| AttributeGuard.NormalizeIsUnfolding | lib-xml/src/parser.cpp:3388-3418 | A value is normalised to a text exactly when unfolding its references, to some depth and without any guard, gives that text: the guard refuses cyclic references and nothing else. |
| AttributeParser.Parser.NormalizeAttributeValue | lib-xml/src/parser.cpp:3272-3434 | Over the stack of sources the loop returns that normalised value for every entity table, always ends, and leaves the stacks of sources and names, the token and the pushback as they were below its source. |
| AttributeParser.Parser.NormalizeValue | lib-xml/src/parser.cpp:535-548 | The wrapper returns the value, collapsed unless it is CDATA, fails where a standalone document would be changed, and leaves the parser as it was. |
| XmlEscape.BareExactly | lib-xml/src/node.cpp:25-61 | A character is written as it is if and only if it is neither `&` nor one that must not stand for itself under these flags and this version. |
| AttributeReferences.DecimalReference | lib-xml/src/parser.cpp:3326-3350 | `&#`, any decimal text of a number, leading zeros included, and `;` is normalised to the character of that number, or refused when the number is none that may be referred to. |
| AttributeReferences.HexReference | lib-xml/src/parser.cpp:3351-3378 | The same for `&#x` and any text over 0123456789abcdef and 0123456789ABCDEF. |
| AttributeReferences.WrappedReference | lib-xml/src/parser.cpp:3351-3378 | A number of 33 bits that is no character reads as the letter A. |
| AttributeReferences.PlainText | lib-xml/src/parser.cpp:3302-3312 | Text without `&` and `<` stays as it is, each character of white space becoming the space 0x20. |
| AttributeReferences.BracketRefused | lib-xml/src/parser.cpp:3298-3299 | A `<` behind such text is refused. |
| AttributeReferences.NameCharacters | lib-xml/src/character-classification.cpp:13-46 | The characters taken in names are those of productions 4 and 4a of XML 1.1, range by range. |
| AttributeReferences.EntityReference | lib-xml/src/parser.cpp:3388-3418 | A reference to any name stands for the normalised replacement text of the first entity of that name, which must not be external, nor declared externally in a standalone document. |
| XmlSpaces.CollapseSpaces | lib-xml/src/parser.cpp:3436-3460 | In place, the text becomes its words with one space between them. |
| XmlSpaces.WordsOfJoined | lib-xml/src/parser.cpp:3436-3460 | Words joined by single spaces are found again, so collapsing loses no word. |
| XmlSpaces.CollapsedAgain | lib-xml/src/parser.cpp:3436-3460 | Collapsing a collapsed text changes nothing. |
| XmlSpaces.CollapsedShape | lib-xml/src/parser.cpp:3436-3460 | The collapsed text has no space at its ends and no two side by side, and every other character in its place. |
| XmlEscape.WriteString | lib-xml/src/node.cpp:25-61 | The writer puts the escaped form of every character on the stream and fails exactly on a zero character. |
| XmlEscape.EscapeRoundTrip | lib-xml/src/node.cpp:25-61 | Normalising the escaped form of a text gives the text back, with white space that was not escaped turned into spaces, unless some character cannot be referred to in this version of XML. |
| XmlEscape.EscapedComesBack | lib-xml/src/node.cpp:25-61 | A text comes back unchanged if and only if it has no control character that cannot be referred to and its tabs and line ends, if any, were escaped. |
| XmlEscape.WrittenSafely | lib-xml/src/node.cpp:25-61 | The text holds no bare `<`, no `&` but that of a reference, and no quotation mark or white space that was to be escaped. |
| XmlEscape.Predefined | lib-xml/src/node.cpp:25-61 | The five predefined entities stand for the characters 0x3C, 0x3E, 0x26, 0x22 and 0x27. |
| Utf8.DecodeEncode | include/zeep/unicode-support.hpp:69-100 | The bytes appended for a character up to U+10FFFF are read back as that character, and all but the first are continuation bytes. |
| JsonReader.PopLastChar | include/zeep/unicode-support.hpp:103-140 | Popping undoes appending: the character and the text before it are found again. |
| JsonRoundTrip.RoundTrip | lib-json/src/element.cpp:735-817 | Parsing what was printed for a printable element gives it back, with empty arrays and objects as null: through nesting, escapes, numbers and ordered keys. |
| JsonStrings.StringSurvives | lib-json/src/parser.cpp:144-203 | For every byte string: it is printed and read back unchanged if and only if it is the UTF-8 of scalar values other than U+FFFE and U+FFFF. |
| JsonStrings.LoneByte | lib-json/src/element.cpp:789-812 | A string of one continuation byte is printed as it is and does not come back. |
| JsonStrings.NotBackslash | lib-json/src/parser.cpp:473-524 | Whatever four characters follow `\u`, the 32-bit value they wrap to is never written as the overlong backslash that could have started the escape. |
| JsonRoundTrip.KeyIsNotEscaped | lib-json/src/element.cpp:774-787 | The text printed for an object whose key is a quotation mark is refused by the parser. |
| JsonKeys.TextTidy | lib-json/src/parser.cpp:211-529 | Whatever bytes are scanned inside quotation marks, the text of the token spells no ASCII character in a longer form. |
| JsonKeys.ScanKey | lib-json/src/parser.cpp:435-524 | Scanning a raw key, even past its own quotation mark, yields fewer backslashes, or as many with fewer ASCII characters, unless it meets no escape and no early quotation mark; then the key is plain. |
| JsonKeys.KeySurvives | lib-json/src/element.cpp:774-787 | For every key and printable value: the object of that one member is printed and read back if and only if the key is UTF-8 of characters that survive, with no quote, backslash or zero. |
| JsonExact.SurvivesExactly | lib-json/src/element.cpp:735-817 | An element whose objects have at most one member is printed and read back, empty containers as null, if and only if its strings and keys are of that kind and its integers have 64 bits. |
| JsonForms.SpellingsRead | lib-json/src/parser.cpp:435-524 | Between quotation marks every character may stand as itself, behind a backslash with its letter, or as `\u` and four hexadecimal digits in either letter case, and the string is read as the characters meant. |
| JsonForms.ScalarIsLexeme | lib-json/src/parser.cpp:211-529 | The words null, true and false, whole numbers, minus zero and strings in any spelling are read as one token each, before anything that may follow. |
| JsonGrammar.ParsesExactly | lib-json/src/parser.cpp:531-640 | A text is parsed to an element if and only if the scanner finds in it the tokens of a form that stands for this element, or none for null: nested arrays and objects, with a comma allowed behind the last item. |
| JsonForms.WhiteSkipped | lib-json/src/parser.cpp:271-276 | White space before a token changes nothing. |
| JsonSpaces.SpacesSkipped | lib-json/src/parser.cpp:271-276 | The scanner finds the tokens of a text whatever runs of the bytes 0x20, 0x09, 0x0A and 0x0D stand before, between and behind them. |
| JsonSpaces.EveryFormIsRead | lib-json/src/parser.cpp:211-640 | Every text of a form, in any spelling and with any white space, is parsed to the element the form stands for. |
| JsonLoose.LooseRoundTrip | lib-json/src/element.cpp:735-817 | What was printed for a printable element is parsed back to it with any white space put between its tokens. |
| JsonLoose.EscapedPair | lib-json/src/parser.cpp:473-524 | The escapes of a surrogate pair are read as two separate encoded surrogates, which are not the encoding of the character they stand for. |
| JsonMembers.FirstKeyWins | lib-json/src/parser.cpp:592-612 | An object is read as its members in the order of their keys, and of several members with one key as the first. |
| JsonScanner.KindOfToken | lib-json/src/parser.cpp:211-300 | The kind of a token is told, both ways, by the code of the first character that is no white space; a token of one character ends with it, and a word is null, true or false. |
| JsonScanner.CharacterRead | lib-json/src/parser.cpp:104-142 | A character is a leading byte with the trail it asks for, or a byte below 0xC0 or from 0xF8 on that stands for itself; overlong forms are taken, a missing trail and numbers beyond 0x10FFFF are refused. |
| JsonScanner.LeadingZero | lib-json/src/parser.cpp:302-345 | A zero before another digit is refused, with or without a minus sign. |
| JsonScanner.SignAlone | lib-json/src/parser.cpp:302-345 | A minus sign that no digit follows is refused. |
| JsonScanner.WideInteger | lib-json/src/parser.cpp:302-345 | A whole number of more than 64 bits is not read as a number of the model. |
| JsonReader.Reader.Retract | lib-json/src/parser.cpp:205-209 | A character put back leaves the token as it was before it; the pushback was empty and holds that one character. |
| JsonReader.Reader.GetNextChar | lib-json/src/parser.cpp:144-203 | The reader returns the character of the value-level scanner, pushed back or decoded, and adds its bytes to the token. |
| JsonReader.Reader.GetNextToken | lib-json/src/parser.cpp:211-529 | The state loop with its pushback returns the token of the value-level scanner and never holds more than one character. |
| JsonReader.ParseJson | lib-json/src/parser.cpp:632-646 | The imperative parser returns the element of the value-level parser for every input, and fails exactly where that fails. |
| JsonWriter.Serialize | lib-json/src/element.cpp:735-817 | The loops of `serialize` append exactly the text the round trip is about. |
| ElementOrder.EqualIsSame | lib-json/src/element.cpp:439-465 | `operator==` holds of two elements exactly when they are the same value. |
| ElementOrder.Trichotomy | lib-json/src/element.cpp:472-498 | Of any two elements exactly one is less than the other or they are equal, across types, nested arrays and maps. |
| ElementOrder.Transitive | lib-json/src/element.cpp:472-498 | `operator<` is transitive through nested lexicographic comparison of arrays, maps and strings. |
| ElementOrder.FirstDifference | lib-json/src/element.cpp:483 | Arrays compare by the first place where they differ, and a proper prefix is less. |
| ElementOrder.TypesInOrder | include/zeep/json/element_fwd.hpp:34-50 | Null is less than a boolean, that than a number, that than an object, that than an array, that than a string. |
| ElementOrder.ScalarsInOrder | lib-json/src/element.cpp:472-498 | Numbers are ordered by their values, and false is less than true. |
| ElementOrder.TextsInOrder | lib-json/src/element.cpp:472-498 | Strings, and the keys of an object, are ordered by the first byte that differs, a beginning before the whole. |
| ElementOrder.ObjectsInOrder | lib-json/src/element.cpp:472-498 | Objects are ordered by the first member that differs: by its key, then by its value. |
| HttpRoundTrip.FramingFinds | lib-http/src/message-parser.cpp:131-158 | When no header speaks of chunks and all lengths agree, the search through the headers finds that length and decides whether content follows. |
| HttpRoundTrip.RequestRoundTrip | lib-http/src/request.cpp:812-840 | A written request is parsed back with all its fields, consuming exactly its bytes, if and only if it is not an empty POST or PUT whose headers close last. |
| HttpRoundTrip.ReplyRoundTrip | lib-http/src/reply.cpp:408-429 | A written reply is parsed back with version, status, headers and content, consuming exactly its bytes. |
| HttpRoundTrip.StallingRequest | lib-http/src/message-parser.cpp:131-158 | A legal POST with a length of zero and `Connection: close` leaves the parser waiting for more. |
| HttpConnection.Resumes | lib-http/src/message-parser.cpp:277-300 | Parsing two buffers one after the other gives the verdict, fields and rest of parsing them joined, from every parser state. |
| HttpConnection.AnyDivision | lib-http/src/message-parser.cpp:277-300 | However a byte sequence is cut into buffers the outcome is that of one buffer. |
| HttpConnection.SessionAnyDivision | lib-http/src/connection.cpp:37-120 | The requests served on a connection and what remains do not depend on how the bytes arrive. |
| HttpConnection.Pipelined | lib-http/src/connection.cpp:37-120 | Requests sent one behind the other, cut anywhere, are served in order, each as it was, until one does not keep the connection alive. |
| HttpStandard.PipelinedByHeaders | lib-http/src/request.cpp:145-149 | Of requests sent one behind the other, cut anywhere, all are served when the first is of version 1.1 and its first header named Connection, in any letter case, says keep-alive; in every other case exactly the first. |
| HttpStandard.DecimalIsDigits | lib-http/src/message-parser.cpp:131-158 | The decimal text of a length, without leading zeros, is the one over 0123456789 with that value. |
| HttpStandard.NameBytes | lib-http/src/message-parser.cpp:20-32 | The bytes a header name may hold, by their codes. |
| HttpStandard.RequestWritten | lib-http/src/request.cpp:812-840 | A request is written as verb, URI, HTTP/1.0 or HTTP/1.1, the headers in order, an empty line and the content, in literal bytes. |
| HttpStandard.ReplyWritten | lib-http/src/reply.cpp:408-429 | A reply is written as version, three digits, phrase, headers, an empty line and the content, in literal bytes. |
| HttpStandard.RequestIsRead | lib-http/src/message-parser.cpp:302-383 | Those bytes are read as that request, leaving what follows, if and only if it is not an empty POST or PUT whose headers close last. |
| HttpStandard.ReplyIsRead | lib-http/src/message-parser.cpp:385-480 | Those bytes are read as that reply, its phrase included, leaving what follows. |
| HttpStandard.PhraseOfCode | lib-http/src/reply.cpp:20-43 | Each of twenty status codes has its phrase. |
| HttpStandard.OtherCode | lib-http/src/reply.cpp:69-86 | Every other code is written as an internal error. |
| HttpLines.RequestLineExactly | lib-http/src/message-parser.cpp:308-368 | The parser has come to the headers with a verb, a URI and a version exactly behind the line of letters, a space, visible bytes, a space, and `HTTP/1`, `HTTP/1.0` or `HTTP/1.1` with its line end. |
| HttpLines.StatusLineExactly | lib-http/src/message-parser.cpp:415-495 | The parser has come to the headers of a reply exactly behind a version, three digits and a phrase, or behind a carriage return and one digit in place of the minor version and the code. |
| HttpLines.BareCodeTaken | lib-http/src/message-parser.cpp:434-470 | Such a line with the code 7 is taken. |
| HttpFields.NameRefused | lib-http/src/message-parser.cpp:64-88 | A header name is refused at the first control character or separator in it. |
| HttpFields.SpaceMissing | lib-http/src/message-parser.cpp:90-95 | The colon behind a name is refused unless a space follows. |
| HttpFields.FeedMissing | lib-http/src/message-parser.cpp:114-119 | A carriage return behind a value or the headers is refused unless a line feed follows. |
| HttpFields.FoldedLine | lib-http/src/message-parser.cpp:121-131 | A line that begins with white space puts its text at the end of the value before, without a space, and loses the blanks behind its first character. |
| HttpFields.BlankLine | lib-http/src/message-parser.cpp:121-131 | A line of blanks alone puts a line feed and the whole next line at the end of the value before. |
| HttpFields.LengthRead | lib-http/src/message-parser.cpp:131-158 | A length is its decimal value, at most 2^32 - 1, whatever white space, leading zeros or plus sign stand before it and whatever follows; a minus sign counts down from 2^32. |
| HttpFields.NoLength | lib-http/src/message-parser.cpp:131-158 | Where no number stands the length is 0, and an empty value leaves it as it was. |
| HttpFields.NegativeLength | lib-http/src/message-parser.cpp:131-158 | The length -1 is 4294967295. |
| HttpFields.ContentCounted | lib-http/src/message-parser.cpp:253-275 | Content is complete with the last byte awaited and not before, and without a length 2^32 bytes are awaited. |
| HttpFields.HexBytes | lib-http/src/message-parser.cpp:189-206 | A byte is taken as a digit of a size exactly when it is one of 0123456789abcdef or 0123456789ABCDEF. |
| HttpFields.ChunkRefused | lib-http/src/message-parser.cpp:177-251 | A byte that is none of those, or not the end of a line where that is due, is refused. |
| HttpMessageParser.MessageParser.Parse | lib-http/src/message-parser.cpp:277-300 | The object with its fields and handler reads a buffer as the value-level parser does: same verdict, same fields, same bytes left. |
| HttpMessageParser.MessageParser.ParseHeaderLines | lib-http/src/message-parser.cpp:54-175 | One byte of the header lines changes the fields as the value-level parser says. |
| HttpMessageParser.MessageParser.ParseChunk | lib-http/src/message-parser.cpp:177-251 | One byte of chunked content changes the fields as the value-level parser says. |
| HttpMessageParser.MessageParser.FindFraming | lib-http/src/message-parser.cpp:131-158 | The loop over the headers decides the framing that the round trips rely on. |
| HttpChunked.HexDigitsFit | lib-http/src/reply.cpp:431-485 | A size below 16 to the power k has at most k digits, so the size of a piece fits its buffer. |
| HttpChunked.ChunksRoundTrip | lib-http/src/message-parser.cpp:177-251 | Chunked pieces of any sizes are decoded to their concatenation, and success comes on the last byte. |
| HttpChunked.ChunkedReplyRoundTrip | lib-http/src/message-parser.cpp:385-408 | A reply with chunked content is parsed back whole and what follows it is untouched. |
| HttpChunkForms.ReadsSizeLine | lib-http/src/message-parser.cpp:177-217 | The size of a chunk is read in either letter case, with leading zeros and with an extension, which is refused if and only if some byte of it may not stand in a header name; a size of more than 32 bits counts as 2^32 - 1. |
| HttpChunkForms.AnyFormIsRead | lib-http/src/message-parser.cpp:177-251 | Chunks in any of these forms are decoded to their concatenation, and the answer comes with the last byte. |
| HttpChunkForms.ExtensionRefused | lib-http/src/message-parser.cpp:177-217 | The size line `1;a=b` is refused. |
| HttpReply.StaysInStep | lib-http/src/reply.cpp:222-240 | A header that has nothing to do with framing can be set without the headers ceasing to announce the content they announced. |
| HttpReply.ReplyObject.SetHeader | lib-http/src/reply.cpp:222-240 | The first header of that name takes the value, or it is added; a header unrelated to framing keeps headers and content in agreement. |
| HttpReply.ReplyObject.RemoveHeader | lib-http/src/reply.cpp:258-263 | All headers of that name are gone, the others keep their order. |
| HttpReply.ReplyObject.SetContent | lib-http/src/reply.cpp:380-392 | The headers announce the new content in full, no chunking is left, and no unrelated header changes. |
| HttpReply.ReplyObject.SetContentStream | lib-http/src/reply.cpp:394-406 | The headers announce chunks and no length, and no unrelated header changes. |
| HttpReply.ReplyObject.SetVersion | lib-http/src/reply.cpp:177-220 | The body stays the same; under HTTP/1.0 a stream is no longer chunked and the headers still agree with what will be sent. |
| HttpReply.ReplyObject.ToBuffers | lib-http/src/reply.cpp:408-429 | The buffers in turn hold status line, headers, the empty line and the content. |
| HttpReply.ReplyObject.DataToBuffers | lib-http/src/reply.cpp:431-485 | One call sends the next 1 to 10240 bytes of the stream, as a chunk or plain, and the closing chunk exactly at the end. |
| HttpReply.Transmit | lib-http/src/connection.cpp:90-120 | Whatever the reply, plain, chunked or streamed, the bytes sent are parsed back as that message with its whole body. |
| XPathAxes.FiveWays | lib-xml/src/xpath.cpp:407-526 | Two nodes are the same, or one is below the other, or one precedes the other: exactly one of the five. |
| XPathAxes.IterateChildren | lib-xml/src/xpath.cpp:407-451 | The walk adds exactly the children, or descendants, that pass the test, each once and in document order. |
| XPathAxes.IterateAside | lib-xml/src/xpath.cpp:473-526 | The walks to both sides collect exactly the preceding or following nodes or siblings that pass the test, each once. |
| XPathAxes.IterateAncestor | lib-xml/src/xpath.cpp:454-470 | The walk upwards adds exactly the ancestors that pass the test, without the document itself. |
| XPathAxes.Evaluate | lib-xml/src/xpath.cpp:674-753 | One step returns, without duplicates, exactly the nodes on its axis that pass its test, apart from a document above the context and the text beside it that the walks pass over. |
| XPathAxes.MeetsDefinition | lib-xml/src/xpath.cpp:473-526 | A step at an element meets the definition of its axis if and only if nothing that passes the test is skipped; a name test on a side axis skips nothing. |
| XPathAxes.UnseenSibling | lib-xml/src/xpath.cpp:501-526 | The text behind an element is its following sibling, but the step for it returns nothing. |
| XPathAxes.Partition | lib-xml/src/xpath.cpp:674-753 | Self, ancestor, descendant, following and preceding are disjoint and together hold every element of the document. |
| XPathAxes.AxesByPosition | lib-xml/src/xpath.cpp:674-753 | Children are the nodes right below the context, the context and its ancestors the beginnings of its path, siblings on either side the nodes below the same parent at a later or an earlier place. |
| XPathAxes.FiveSteps | lib-xml/src/xpath.cpp:674-753 | Evaluating the five axes one after the other visits every element that passes the test once. |
| SiblingList.Node.InsertSibling | lib-xml/src/node.cpp:107-129 | Walking the chain, the node is put before the one asked for with all links consistent; if that one is not found behind the start nothing changes. |
| SiblingList.NodeList.Insert | include/zeep/xml/node.hpp:823-868 | The list becomes the old one with the node at the position, links, head, tail and parents consistent; a refused node leaves the list as it was and keeps its neighbours, and its parent unless it had none of them. |
| SiblingList.StrayNode | include/zeep/xml/node.hpp:836-860 | A new node inserted before a node of another list is refused and in no list, but has the element for a parent. |
| SiblingList.NodeList.Erase | include/zeep/xml/node.hpp:870-923 | The node at the position is taken out and unlinked, the iterator returned stands on the one behind it, the rest of the list is kept. |
| SiblingList.NodeList.Clear | include/zeep/xml/node.hpp:788-792 | The list is empty and every node was deleted once. |
| SiblingList.NodeList.Swap | include/zeep/xml/node.hpp:794-804 | Two lists exchange their nodes and each node gets the other element as its parent. |
| TextNodes.MergedKeeps | lib-xml/src/node.cpp:767-792 | Merging neighbours leaves no two text nodes side by side and keeps the text before, between and behind all other nodes. |
| TextNodes.FlattenText | lib-xml/src/node.cpp:767-792 | The loop over the linked nodes turns the list into the merged one. |
| Hash.PaddingIs | lib-http/src/crypto.cpp:987-1007 | What `final` adds to the bytes it still holds is the padding of the whole message, to a multiple of 64 bytes. |
| Hash.LengthIsRead | lib-http/src/crypto.cpp:546-550 | The eight bytes of the length, read in the order of the algorithm, are the number of bits. |
| Hash.PaddingStandard | lib-http/src/crypto.cpp:987-1007 | Behind the message come a byte 0x80, as few zero bytes as fill a block of 64, and the number of its bits modulo 2^64. |
| Hash.HashBase.Update | lib-http/src/crypto.cpp:949-984 | Whatever the pieces, the object then stands for the message with them appended. |
| Hash.HashBase.Final | lib-http/src/crypto.cpp:987-1007 | The result folds the compression function over the padded message, and the object is as freshly initialised. |
| KeyDerivation.HmacObject.Final | lib-http/src/crypto.cpp:1083-1102 | After any updates, and on every reuse, the result is the HMAC of RFC 2104, section 2, of what was passed since the last result. |
| KeyDerivation.IndexIsRead | lib-http/src/crypto.cpp:1136-1144 | A block index below 2^32 is four bytes that read as it with the highest first, and different indices have different bytes. |
| KeyDerivation.XorIsBitwise | lib-http/src/crypto.cpp:1152-1153 | A bit of two bytes combined is set where their bits differ. |
| Bits.XorBitwise | lib-http/src/crypto.cpp:1152-1153 | The same for numbers of any width. |
| Bits.OrBitwise | lib-http/src/crypto.cpp:20-161 | A bit of the or of two numbers is set where one of them has it. |
| KeyDerivation.HmacStandard | lib-http/src/crypto.cpp:1060-1102 | The result hashes the key, filled up to 64 bytes and inverted by 0x5C, before the hash of the key inverted by 0x36 before the message. |
| KeyDerivation.Pbkdf2 | lib-http/src/crypto.cpp:1128-1164 | The result is the truncated concatenation T1, T2 and so on of RFC 8018, section 5.2; zero iterations count as one. |
| KeyDerivation.ShorterKey | lib-http/src/crypto.cpp:1128-1164 | A shorter key is a prefix of a longer one from the same password and salt. |
| Base64.EncodeBase64 | lib-http/src/crypto.cpp:163-248 | The loops write the groups of the data with a break after every full line and at the end. |
| Base64.DecodeBase64 | lib-http/src/crypto.cpp:250-315 | The loops return what the value-level decoder returns, for every input, and fail where it fails. |
| Base64.DecodeEncode | lib-http/src/crypto.cpp:250-315 | Decoding what was encoded gives the data back if and only if no line ends between two padding characters, which a caller can compute from the lengths. |
| Base64.TornPadding | lib-http/src/crypto.cpp:280-292 | One byte encoded in lines of three characters is refused by the decoder. |
| Base64.AssertionHolds | lib-http/src/crypto.cpp:163-248 | The length asserted at the end is right if and only if there is no data, or no wrapping, or the last line is not full. |
| Base64.FullLine | lib-http/src/crypto.cpp:169-170 | Three bytes encoded in a line of four characters have five characters where six are asserted. |
| Base64.WrappedLength | lib-http/src/crypto.cpp:163-248 | The number of line breaks in characters that are wrapped is the number of full lines that something follows. |
| Base64Standard.LetterInTable | lib-http/src/crypto.cpp:20-161 | The letter for a value is the one at its place in the alphabet of RFC 4648, section 4. |
| Base64Standard.GroupIsWritten | lib-http/src/crypto.cpp:163-248 | Up to three bytes are written as the four letters of their 24 bits, the highest first, with `=` for those that hold only missing bits. |
| Base64Standard.GroupsAreWritten | lib-http/src/crypto.cpp:163-248 | Without lines, the letters from place 4 i on are those of the bytes from place 3 i on. |
| Base64Standard.TestVector | lib-http/src/crypto.cpp:163-248 | "fo" is written as "Zm8=". |
| Base64Standard.WrappedInLines | lib-http/src/crypto.cpp:163-248 | Wrapping adds nothing but line feeds and leaves no line longer than asked for. |
| Base64Standard.DecodedExactly | lib-http/src/crypto.cpp:250-315 | A text is decoded if and only if, without its blanks, it is groups of four with padding only at the end of a group, and no blank stands between two characters of padding. |
| Base64Standard.CommasDecoded | lib-http/src/crypto.cpp:24-161 | Four commas are decoded, though no comma is in the alphabet. |
| Base64Standard.StrayCharacters | lib-http/src/crypto.cpp:24-161 | The characters outside the alphabet that are decoded are exactly those with a code between two of its runs, and each counts as 128. |
| Base64.EncodeBase64Url | lib-http/src/crypto.cpp:317-330 | The loops strip the padding and replace the two characters everywhere. |
| Base64.DecodeBase64Url | lib-http/src/crypto.cpp:332-348 | The loops undo the replacement, pad again by the length, and refuse the one impossible length. |
| Base64.UrlDecodeEncode | lib-http/src/crypto.cpp:317-348 | The form for addresses gives every byte string back. |
| GlobMatch.Match | lib-http/src/glob.cpp:21-95 | The loops and recursive calls end for every pattern and name and decide the relation with at least one character left behind a star. |
| GlobMatch.MeaningByCharacter | lib-http/src/glob.cpp:21-95 | What `*`, `**`, `?` and any other character, given by its code, mean before any pattern. |
| GlobMatch.DecidesMeaning | lib-http/src/glob.cpp:21-95 | The code decides the meaning of a pattern for all names if and only if no two stars stand before something that may stand for nothing. |
| GlobMatch.ThreeStars | lib-http/src/glob.cpp:53-63 | Three stars refuse the empty name, though they mean it. |
| GlobGroups.ExpandGroup | lib-http/src/glob.cpp:97-114 | The recursion ends for every pattern and appends its expansions in order. |
| GlobGroups.ExpandsToMeaning | lib-http/src/glob.cpp:97-114 | A pattern whose braces balance and whose groups have their own commas expands to exactly the strings of its nested alternatives. |
| Glob.MatchPath | lib-http/src/glob.cpp:120-150 | A path is matched exactly when some expansion of some part between semicolons matches it, with a directory standing for all below it. |
| Glob.CompletedIsListed | lib-http/src/glob.cpp:129-132 | A list of patterns whose last one ends in `/` is completed by two stars behind that slash, and no other list is changed. |
| Glob.GroupIsWritten | lib-http/src/glob.cpp:97-114 | A group of two branches is written between braces with a comma, and balances exactly when both do. |
| Glob.SelectsMeaning | lib-http/src/glob.cpp:120-150 | For a list of balanced patterns with `;` between them, the last perhaps ending in a slash, a path is selected exactly when a string of one of them means it, provided none of these strings stalls. |
| DecimalRounding.RoundDecimal | lib-http/src/format.cpp:261-305 | For every digit string and place, before, inside or behind the digits, the returned digits and exponent denote the value rounded half upwards at that place, through carries over nines. |
| DecimalRounding.FractionNumber | lib-http/src/format.cpp:261-305 | Digits behind the point, moved by their number, are a whole number. |

## Left out

- Floating-point numbers: JSON numbers with a fraction or an exponent, integers beyond 64 bits, XPath numbers,
  the constructor of `Decimal` and `formatFixed`. The JSON verdict `Beyond` marks where input leads there.
- JsonRoundTrip.RoundTrip: states only that printable elements come back; that no others do is proved where no object
  has more than one member.
- JsonReader.ParseJson: the reader is not used again after a token was refused.
- Sockets, threads and daemons: a connection is the sequence of buffers it receives.
- HttpRoundTrip.RequestRoundTrip: header names are tokens and values hold no carriage return and no leading
  space; cookies, multipart forms and URI splitting are not part of this model.
- AttributeParser.Parser.NormalizeAttributeValue: text is a sequence of characters, so the decoding of UTF-8 in a
  data source is not repeated there; external entities and parameter entities are not part of this model.
- XPathAxes.Evaluate: the attribute and namespace axes, paths of several steps, unions and predicates.
- SiblingList.NodeList.Insert: a position in an empty list is what the source's assertion excludes.
- The list operation `sort`, which exchanges the contents of nodes, and attribute sets.
- KeyDerivation.Pbkdf2: passwords are no longer than a block; for longer keys the HMAC constructor keeps a view of
  a temporary string. A key of exactly a block is proved, though an assertion refuses it in debug builds.
- Hash.HashBase.Final: the rounds of MD5, SHA-1 and SHA-256 are a parameter, as is the length of the digest; hashing
  straight from a stream buffer is left out.
- Base64.DecodeBase64: a single `=` at the very end, behind which the code reads past the data, counts as refused.
- Hexadecimal coding, whose decoder indexes the wrong element.
- GlobMatch.Match: strings hold no zero byte, and letter case is that of the C locale.
- Glob.MatchPath: the pattern is not empty, since the source looks at its last character first.
- The expression language, templates, forms, SOAP and the rest of DTD parsing: they compute no law to compare with.
