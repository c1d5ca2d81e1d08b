# Verified models of an order service and its web framework

The project models the harder parts of a small order service (`src/`, `include/`) and of the web framework
below it (`crow/`), and proves what they promise. Text is a sequence of characters, one per byte. Code that
works step by step is imperative Dafny, proved against functions on values; protocols between threads are
state machines whose atomic steps interleave freely.

| file | about |
|---|---|
| `Mustache.dfy`, `ObjectBlocks.dfy`, `TemplateValues.dfy` | the template compiler and the machine that runs its flat action array, what its test for object blocks means, and what tags and sections stand for |
| `RouteTrie.dfy`, `Router.dfy`, `RouteArguments.dfy`, `RouteFilling.dfy` | the URL router: a trie against a scan over the rules, the trie in place, the way of matched values into handler arguments, and rules as texts with arguments put in |
| `Json.dfy`, `JsonBuffer.dfy`, `JsonText.dfy`, `JsonGrammar.dfy` | the JSON reader and writer on values, the reader as it overwrites its buffer, and the grammar of RFC 8259 that it accepts |
| `HttpBody.dfy`, `HttpMessages.dfy` | the body states of the HTTP parser, however the bytes are split, and the messages that they decode |
| `WebSocket.dfy`, `WebSocketBytes.dfy` | framing, masking and reassembly of messages, bit by bit and on the examples of RFC 6455 |
| `Multipart.dfy` | the multipart writer and reader |
| `QueryString.dfy`, `PercentEncoding.dfy` | the query string, decoded in place, and what its values stand for |
| `Sha1.dfy` | streaming SHA-1 against FIPS 180-4 |
| `Middleware.dfy`, `Admission.dfy`, `Verdicts.dfy` | middleware brackets, the admission and drain protocol inside them, and the verdict of a request |
| `OrderCache.dfy`, `OrderAnswers.dfy` | the order handlers between database and cache, and what they answer and store |
| `Metrics.dfy` | the lock-free duration metrics |
| `Sequences.dfy`, `Texts.dfy` | optional values, parts of sequences and pieces of texts, for the other files |

What the proofs found out about the code, beyond what its documentation says:

- A parameter tag that does not fit 64 bits is never read back right (`RouteArguments.TagRoundTripExactly`);
  25 `<path>` placeholders are enough (`RouteArguments.TagOverflow`).
- JSON is reloaded up to 5000 nested containers, not 10000, because every level spends two units of depth
  (`Json.LoadUndoesDump`).
- As long as the handler has not answered inside the callback, bytes behind a message in the same buffer
  complete it again: every byte behind a body of known length (`HttpMessages.SurplusAfterBody`), and every
  line feed behind a message without a body or a chunked one, where any other byte is an error
  (`HttpMessages.SurplusAfterNoBody`, `HttpMessages.SurplusAfterChunked`). A handler that answers at once
  clears the parser, and the bytes start the next request.
- A chunk's data that is followed by a wrong byte is lost when both are in one buffer, and reported when they
  are not (`HttpMessages.WrongByteFed`); otherwise an error loses nothing (`HttpBody.ReportedExactly`).
- The table of hexadecimal digits lists its first half only, so a byte from 128 on is taken as the digit 0 of
  a chunk size and can end the chunks (`HttpMessages.HighByteEndsChunks`); sizes are hexadecimal exactly when
  they have no such byte (`HttpMessages.SizeIsHexExactly`).
- A multipart message is read back exactly when every part has a Content-Disposition header with a name
  (`Multipart.ReloadsExactly`); without one the code reads behind the end of the parameters
  (`Multipart.UnnamedPartLost` gives such a part).
- SHA-1 is padded as the standard asks exactly below 2^29 bytes (`Sha1.PaddingExact`).
- A payment that overtakes the cache write of the creation, or an invalidation that is lost, leaves
  `get_order` with a stale answer (`OrderCache.OverlapGoesStale`, `OrderCache.LostInvalidationGoesStale`);
  `OrderCache.StaleExactly` says exactly when a cached answer is stale.
- Two payments of one order that overlap are both confirmed (`OrderAnswers.OverlapPaysTwice`), and overlap is
  the only way (`OrderAnswers.PaidTwiceOnlyByOverlap`).
- Numbers of a JSON text are those of RFC 8259, but a lone zero with an exponent is refused, and a fraction or
  a signed exponent without digits is taken (`JsonText.StandardExactly`). Escaped pairs of surrogates are not
  put together (`JsonText.SurrogatesExactly`).
- A closed inverted section can hide the section around it from the test for object blocks
  (`ObjectBlocks.InvertedSectionHidesBlock`); `ObjectBlocks.TestRightExactly` says exactly when.

`dafny verify dfyconfig.toml` checks everything.

## Model

| member | source | states |
|---|---|---|
| Mustache.Template.Parse | crow/mustache.h:495-676 | the loop that grows the action array and back-patches block positions gives exactly the result of folding the tags, with the same errors |
| Mustache.ParseSound | crow/mustache.h:529-578 | an accepted action array has mutually inverse, properly nested block links and carries the tags in order |
| Mustache.OpenBlockRejected | crow/mustache.h:664-676 | an array in which a block is still open is refused for its missing end tag |
| Mustache.WellNestedNothingMissing | crow/mustache.h:129-146 | in a well nested part no block start lacks its end |
| Mustache.FlatteningInjective | crow/mustache.h:529-578 | different block trees have different tags and fragments |
| Mustache.ParseOfTree | crow/mustache.h:529-578 | parsing the flattening of a tree gives the tree back |
| Mustache.ParseAcceptsExactlyTrees | crow/mustache.h:529-578 | tags are accepted if and only if they are the flattening of some block tree |
| Mustache.TreeOfTags | crow/mustache.h:529-578 | the tree read from a well nested array has the array's tags |
| Mustache.TreeOfFragments | crow/mustache.h:664-676 | and the template's fragments |
| Mustache.SearchContext | crow/mustache.h:171-231 | name lookup through the stack, dotted names included, is the recursive lookup |
| Mustache.IsTagInsideObjectBlock | crow/mustache.h:256-278 | the backward scan is the test on the actions before the tag |
| ObjectBlocks.InsideObjectBlockMeaning | crow/mustache.h:256-278 | for every prefix of actions the test holds if and only if the top context is an object and some section start is met with no surplus of ends behind it |
| ObjectBlocks.EndClosesInnermost | crow/mustache.h:554-578 | a block end of a parsed array closes the innermost block around it |
| ObjectBlocks.SectionOpenByLinks | crow/mustache.h:554-578 | a section is open at a position if and only if it starts before it and is linked to an end behind it |
| ObjectBlocks.TestExactly | crow/mustache.h:256-278 | on every prefix of a parsed array the test holds if and only if some open section has fewer inverted sections closed behind it than sections open from it on |
| ObjectBlocks.TestRightExactly | crow/mustache.h:256-278 | the test agrees with "a section is open" if and only if none is open or such a section is there, and never reports a section that is not open |
| ObjectBlocks.InvertedSectionHidesBlock | crow/mustache.h:256-278 | a template that the parser accepts, with a variable inside a section that the test misses |
| Mustache.ChoosePasses | crow/mustache.h:348-414 | how often, and with which contexts, a block is rendered |
| Mustache.RenderState.AppendEscaped | crow/mustache.h:236-252 | the escaping loop appends the escaped text |
| Mustache.RenderState.RenderFragment | crow/mustache.h:426-439 | a fragment is appended with its line indentation |
| Mustache.RenderState.RenderVariable | crow/mustache.h:305-346 | a variable appends the text of the evaluation, which VariableShows says, or throws |
| Mustache.RenderState.RenderList | crow/mustache.h:389-398 | a list section renders its content once per item and restores the stack |
| Mustache.RenderState.RenderSection | crow/mustache.h:348-414 | a block start jumps, loops or enters, and what is still to be rendered stays the same meaning |
| Mustache.RenderState.CloseSection | crow/mustache.h:415-417 | a block end pops exactly the context that its start pushed |
| Mustache.RenderState.RenderAction | crow/mustache.h:284-422 | one round of the machine keeps output plus rest of the program equal to the meaning |
| Mustache.RenderState.RenderInternal | crow/mustache.h:280-425 | running the flat jumps gives exactly the output or exception of the recursive evaluation, and leaves the stack as it found it |
| Mustache.StepBlock | crow/mustache.h:348-414 | the meaning of the rest of the program at a block start, by its passes |
| Mustache.StepClose | crow/mustache.h:415-417 | the meaning of the rest at a block end |
| Mustache.ParsedTreeMeaning | crow/mustache.h:280-425 | the meaning of the parsed array is the evaluation of the tree |
| Mustache.CompileAndRender | crow/mustache.h:454-463 | compile and render of any tags: refused if and only if they are no tree; otherwise there is a tree with these tags and fragments, and the output is its meaning |
| TemplateValues.LookupExactly | crow/mustache.h:171-231 | a name stands for the value in the innermost context that the path of its pieces leads through, "." for the top of the stack, and for nothing without such a context: this answer and no other |
| TemplateValues.EscapeShown | crow/mustache.h:236-252 | an escaped text is shown as the text itself once its eight entities are replaced |
| TemplateValues.EscapeHoldsNoMarkup | crow/mustache.h:236-252 | an escaped text holds none of the characters of markup |
| TemplateValues.VariableShows | crow/mustache.h:305-346 | a variable shows the value that its name stands for: a string as it is in three braces, and in two braces without markup and shown as the string; it throws exactly for null, lists and objects |
| TemplateValues.SectionRendered | crow/mustache.h:348-414 | of a section and its inverted section exactly one is rendered: the inverted one for a name that stands for nothing, false, null or the empty list; the other once per item of a list, in order, and once for any other value |
| TemplateValues.FragmentShows | crow/mustache.h:426-439 | a fragment is the text of its range with the indentation behind every newline that does not end the template |
| TemplateValues.RenderTag | crow/mustache.h:454-463 | a template with one variable, compiled and rendered from its tags: the texts around it and the shown value |
| TemplateValues.RenderBlock | crow/mustache.h:454-463 | a template with one section or inverted section around plain text: the text as often as the value asks for |
| RouteTrie.StoredInsert | crow/routing.h:996-1079 | adding a rule changes the stored index of that rule and of no other token list |
| RouteTrie.InsertWellFormed | crow/routing.h:996-1079 | the edges of a node stay different, one character or placeholder each |
| RouteTrie.BuildStores | crow/routing.h:996-1079 | adding a list of rules succeeds if and only if they differ, and stores exactly their indices |
| RouteTrie.FindInIsBest | crow/routing.h:832-988 | the loop over the children keeps the smallest non-zero index |
| RouteTrie.FindSound | crow/routing.h:832-988 | a found index is stored under tokens that match the whole URL |
| RouteTrie.FindMinimal | crow/routing.h:832-988 | no stored matching rule has a smaller index than the one found |
| RouteTrie.TrieRefinesLinearScan | crow/routing.h:832-988 | for all rules and URLs the trie finds the index of a scan over the rules, 0 if none matches |
| RouteTrie.FoundIsRule | crow/routing.h:832-988 | index and parameters found are those of some rule that matches |
| RouteTrie.TrieRefinesLinearScanWithParams | crow/routing.h:832-988 | with different indices the parameters agree with the scan too |
| RouteTrie.MergedAgrees | crow/routing.h:752-765 | merging a node with its only child changes no search |
| RouteTrie.OptimizedAgrees | crow/routing.h:752-773 | nor does merging all chains below a node |
| RouteTrie.OptimizePreservesFind | crow/routing.h:742-773 | optimize changes neither the rule index nor the parameters found, for any URL |
| RouteTrie.OptimizedTrieRefinesLinearScan | crow/routing.h:742-988 | the optimized trie refines the scan |
| Router.RoutingParams.PushValue | crow/routing.h:878-967 | a value goes to the end of the vector of its type |
| Router.RoutingParams.PopValue | crow/routing.h:878-967 | the pop undoes the push |
| Router.Trie.Descend | crow/routing.h:1022-1071 | the walk goes to the child of the token, which is created when missing |
| Router.Trie.Add | crow/routing.h:996-1079 | add in place inserts the rule's tokens, or refuses and changes nothing when they are taken |
| Router.Trie.Validate | crow/routing.h:824-830 | validate optimizes, exactly when the head is a simple node, and changes no search |
| Router.Trie.FindAt | crow/routing.h:832-988 | the search with shared parameters is the search on values, and leaves the parameters as they were |
| Router.Trie.FindChild | crow/routing.h:865-986 | so does the search below one child |
| Router.Trie.FindUrl | crow/routing.h:990-993 | the search from the head |
| Router.SimpleHead | crow/routing.h:714-723 | the head is simple if and only if no rule is empty and all start with the same character |
| Router.Route | crow/routing.h:824-1079 | rules added one by one, validated and searched: an exception if and only if two are the same or they have no common root, otherwise the result of the scan over the rules |
| RouteArguments.ArgumentsOfTag | crow/utility.h:347-359 | the digits of a tag give back the argument types |
| RouteArguments.TagOfText | crow/utility.h:219-230 | the tag computed from the rule text is the base-6 number of its placeholders, modulo 2^64 |
| RouteArguments.TagRoundTrip | crow/utility.h:219-359 | up to 24 placeholders the types are read back |
| RouteArguments.CutOffIsWrong | crow/utility.h:219-359 | a tag that was cut off is never read back right |
| RouteArguments.TagRoundTripExactly | crow/utility.h:219-359 | the types are read back if and only if the tag fits 64 bits |
| RouteArguments.TagOverflow | crow/utility.h:219-230 | the rule text of 25 `<path>` placeholders: its tag is cut off and gives other argument types |
| RouteArguments.MatchPushesValues | crow/routing.h:865-985 | a match pushes the matched values in order, each to its vector |
| RouteArguments.CallFindsValues | crow/routing.h:189-243 | per-type counters recover the original order from the four vectors |
| RouteArguments.HandlerArguments | crow/routing.h:189-243 | for every rule whose tag fits 64 bits the k-th handler argument is the value matched by the k-th placeholder |
| RouteFilling.WrittenRead | crow/routing.h:1002-1071 | a rule written as fixed text and the names `<int>`, `<uint>`, `<float>`, `<double>`, `<str>`, `<string>` and `<path>` is read as these characters and types |
| RouteFilling.GoodTextExactly | crow/routing.h:1002-1071 | the texts that are taken are exactly those written in this way |
| RouteFilling.TagOfName | crow/utility.h:219-230 | the tag digit of each placeholder name, and the argument type read back from it |
| RouteFilling.ScanTakes | crow/routing.h:865-967 | a placeholder takes exactly what it may: a string a whole segment, a path all the rest, a number what the scanner takes from a digit or sign on |
| RouteFilling.MatchExactly | crow/routing.h:865-985 | a rule matches a URL with these values if and only if the URL is the rule with arguments put in that its placeholders take |
| RouteFilling.StringRuleExactly | crow/routing.h:937-950 | a rule of fixed text and strings matches if and only if slashes keep its placeholders apart and the URL is the rule with segments put in, which are the values |
| RouteFilling.LastSegmentRule | src/main.cpp:277-280 | a rule of fixed text and `<string>` behind it matches exactly the URLs that are its text followed by one segment, and this segment is the argument |
| RouteFilling.HandlerFilled | crow/routing.h:189-243 | the handler of a rule whose tag fits 64 bits is called with the arguments that were put in |
| RouteFilling.RouteUrl | crow/routing.h:824-1079 | rules added, validated and searched: nothing is found exactly when the URL is no rule with arguments put in; otherwise the rule with the smallest index of those is found and its handler called with these arguments |
| Json.EscapedString | crow/json.h:45-71 | unescaping undoes escaping, for every byte string at every place of a text |
| Json.QuotedString | crow/json.h:1838-1843 | a printed string is read back |
| Json.DecimalNumber | crow/json.h:1002-1126 | the automaton accepts every printed 64-bit integer as a whole |
| Json.NumeralOfDecimal | crow/json.h:1933-1940 | the printed digits denote the integer |
| Json.ScalarRoundTrip | crow/json.h:1129-1181 | null, booleans, numbers and strings are read back |
| Json.ListRoundTrip | crow/json.h:962-1000 | so are lists, within the depth |
| Json.ObjectRoundTrip | crow/json.h:1183-1244 | and objects |
| Json.ValueRoundTrip | crow/json.h:1852-2028 | a printed value inside any text is read back if its depth fits, and refused if not |
| Json.FitsIsNesting | crow/json.h:875-878 | the depth limit is a limit on nested containers: two units each |
| Json.LoadUndoesDump | crow/json.h:1246-1271 | load of dump is the value if and only if at most 5000 containers are nested, at any indentation |
| JsonText.Utf8Exactly | crow/json.h:514-528 | bytes are those of a code point below 0x10000 if and only if they decode to it by their lead and continuation bytes, in the shortest form |
| JsonText.HexExactly | crow/json.h:502-508 | hexadecimal digits of both cases are read as their value, and nothing else is a digit |
| JsonText.ShortExactly | crow/json.h:492-499 | the two-character escapes and what they stand for are the table of section 7 of RFC 8259 |
| JsonText.EscapeExactly | crow/json.h:488-531 | an escape is taken if and only if it is one of RFC 8259, and stands for the UTF-8 of its code |
| JsonText.StringExactly | crow/json.h:902-960 | a string ends at a quote and has these bytes if and only if it is written as plain bytes and escapes for them |
| JsonText.StringMeaning | crow/json.h:480-542 | however the characters of a string are written, the bytes read are the UTF-8 of these characters |
| JsonText.SurrogatesExactly | crow/json.h:509-528 | escapes are read one by one, which is what RFC 8259 says if and only if there is no pair of surrogates |
| JsonText.NumberExactly | crow/json.h:1002-1126 | a number is taken up to a position if and only if it is a numeral of the tolerated grammar and no character of a number follows |
| JsonText.StandardExactly | crow/json.h:1002-1126 | the tolerated numerals are those of RFC 8259, without a lone zero with an exponent, and with those whose fraction or signed exponent has no digits |
| JsonGrammar.ValueExactly | crow/json.h:962-1244 | a value is read from a position if and only if it stands there by the grammar and its containers fit the depth |
| JsonGrammar.LoadExactly | crow/json.h:1246-1271 | load gives a value if and only if the text is that value by the grammar, with space around it, and nests at most 5000 containers |
| JsonBuffer.RawString | crow/json.h:902-960 | what decode_string accepts decodes, taken alone, to the reader's string |
| JsonBuffer.ReadFrame | crow/json.h:763-770 | a tree is read from its own range of the buffer only, and stays ready when that range stays |
| JsonBuffer.UnescapeUnit | crow/json.h:488-535 | one escape is moved: the write position stays behind the read position |
| JsonBuffer.UnescapeRange | crow/json.h:484-536 | the loop leaves exactly the decoded string and touches nothing outside its range |
| JsonBuffer.Unescape | crow/json.h:480-542 | unescape gives the string that the range stood for, and a second call changes nothing |
| JsonBuffer.StringRewritten | crow/json.h:453-542 | unescaping any string of a ready tree and moving its end leaves what the whole tree stands for, and leaves the tree ready |
| JsonBuffer.AskString | crow/json.h:453-461 | a string of a tree, asked for by its path: its text, and the tree unchanged in meaning |
| JsonBuffer.LoadAndAsk | crow/json.h:453-461 | strings of a loaded text asked for in any order and any number of times: the tree always stands for the value read |
| JsonBuffer.JsonParser.DecodeString | crow/json.h:902-960 | accepts exactly what the reader accepts, overwrites the quotes, and the range stands for the string |
| JsonBuffer.JsonParser.DecodeNumber | crow/json.h:1002-1126 | the automaton in place ends where the reader's does |
| JsonBuffer.JsonParser.DecodeValue | crow/json.h:1129-1181 | succeeds if and only if the reader does, ends at the same place, and the tree stands for its value |
| JsonBuffer.JsonParser.DecodeItems | crow/json.h:977-998 | the list loop collects trees for the reader's items although the buffer changes under it |
| JsonBuffer.JsonParser.DecodeMembers | crow/json.h:1200-1242 | so does the object loop |
| JsonBuffer.JsonParser.DecodeMember | crow/json.h:1202-1229 | the key is unescaped in place before its value is read |
| JsonBuffer.JsonParser.Parse | crow/json.h:1246-1254 | the whole text: the in-place parser finds exactly the value of the reader, in a tree whose ranges lie apart and whose strings are ready to be unescaped |
| JsonBuffer.LoadCopy | crow/json.h:1260-1271 | load of a copy of the text, with a ready tree |
| JsonBuffer.ReloadDump | crow/json.h:1260-1271 | the in-place reader undoes the writer exactly up to 5000 nested containers |
| JsonBuffer.Children.EmplaceBack | crow/json.h:722-740 | appends one child and keeps the others; growth doubles up to 60000 so that the room fits 16 bits |
| HttpBody.StepGood | crow/http_parser_merged.h:1652-1888 | every byte keeps the remaining length exact and never 0 or all-ones where data is expected, and the header count within its limit |
| HttpBody.RunGood | crow/http_parser_merged.h:1652-1888 | so does every run |
| HttpBody.RunConcat | crow/http_parser_merged.h:750-757 | a run over two pieces is the run over their concatenation |
| HttpBody.HttpParser.TakeBody | crow/http_parser_merged.h:1723-1758 | the jump over a body of known length is the bytes one by one, completed with the last one |
| HttpBody.HttpParser.TakeChunk | crow/http_parser_merged.h:1851-1872 | the jump over chunk data is the bytes one by one, with the mark left open |
| HttpBody.HttpParser.EndChunk | crow/http_parser_merged.h:1874-1881 | the open mark is reported behind the data; with a wrong byte exactly the data since the mark is lost |
| HttpBody.HttpParser.Iterate | crow/http_parser_merged.h:750-1893 | one round of the byte loop keeps reported plus marked bytes equal to the machine's body, and stops exactly where the machine fails |
| HttpBody.HttpParser.Execute | crow/http_parser_merged.h:705-1926 | a buffer gives the state, body and completed messages of the byte machine; on an error the same error at the same byte, and the same body but for a chunk's data in front of a wrong byte |
| HttpBody.ReportedExactly | crow/http_parser_merged.h:1874-1881 | on an error the whole body was reported if and only if the byte is not one that ends a chunk's data in this buffer |
| HttpBody.HttpParser.Feed | crow/parser.h:111-133 | feed accepts a buffer if and only if the machine does, with its result, and reads nothing while a complete message waits for its answer |
| HttpBody.HttpParser.FeedAll | crow/parser.h:111-133 | any non-empty buffers, whether the handler answers at once or later: they are read up to the one that leaves a message waiting or is wrong, with the machine's result on their concatenation |
| HttpBody.HttpParser.OnMessageComplete | crow/parser.h:94-101 | the handler gets the body collected so far; when it answers at once the parser is cleared before the callback returns |
| HttpBody.AddDigitExact | crow/http_parser_merged.h:1402-1426 | within the limit the next value is exact and below all-ones; above it it is refused |
| HttpMessages.AccumulatedExact | crow/http_parser_merged.h:1770-1817 | a length is read exactly or refused, and refused exactly when the digits before the last exceed the limit |
| HttpMessages.ReadContentLength | crow/http_parser_merged.h:1300-1435 | a Content-Length value is accepted if and only if it is digits then spaces and the digits before the last are within the limit, and read as that number |
| HttpMessages.SizeTakenExactly | crow/http_parser_merged.h:1770-1817 | up to the end of the line a text is taken as a chunk size if and only if every byte has a value in the table and the number and the line stay within their limits |
| HttpMessages.SizeIsHexExactly | crow/http_parser_merged.h:681-690 | a size that is taken is hexadecimal, as section 4.1 of RFC 7230 asks, if and only if all its bytes are below 128 |
| HttpMessages.UnhexExactly | crow/http_parser_merged.h:681-690 | below byte 128 the table has the hexadecimal digits of both cases with their values, and nothing else |
| HttpMessages.HexSizeExactly | crow/http_parser_merged.h:1770-1817 | a size in hexadecimal digits is taken if and only if it is within the limit, as the number of these digits to the base 16 |
| HttpMessages.HighByteEndsChunks | crow/http_parser_merged.h:681-690 | a single byte from 128 on is taken as the size 0 and ends the chunks |
| HttpMessages.RunLine | crow/http_parser_merged.h:1770-1849 | a chunk line with any extension sets the length and resets the header count |
| HttpMessages.RunChunks | crow/http_parser_merged.h:1770-1888 | a list of chunks appends exactly their data |
| HttpMessages.ChunkedDecoded | crow/http_parser_merged.h:1770-1888 | a chunked message decodes to the data of its chunks and is complete once, with its last byte |
| HttpMessages.IdentityDecoded | crow/http_parser_merged.h:1701-1768 | a message of known length is its own body and is complete once, with its last byte |
| HttpMessages.ReceiveChunked | crow/parser.h:88-133 | however a chunked message is split, the handler gets its whole body exactly once |
| HttpMessages.ReceiveIdentity | crow/parser.h:88-133 | the same for a message of known length |
| HttpMessages.NextRequestStarts | crow/parser.h:140-149 | behind a cleared parser nothing is completed again |
| HttpMessages.SurplusAfterBody | crow/http_parser_merged.h:1766-1768 | behind a body of known length every further byte completes the message again while its answer is deferred: complete once if and only if the handler answers at once or there is no further byte |
| HttpMessages.SurplusAfterNoBody | crow/http_parser_merged.h:1652-1720 | behind a message without a body every line feed completes it again while its answer is deferred, and any other byte is an error: complete once if and only if the handler answers at once or no line feed follows at once |
| HttpMessages.SurplusAfterChunked | crow/http_parser_merged.h:1580-1590 | the same behind a chunked message, up to the limit on header bytes |
| HttpMessages.WrongByteFed | crow/http_parser_merged.h:1874-1881 | the same bytes at once and in two buffers: the same error, but the data of the chunk is lost at once |
| WebSocket.MaskedTwice | crow/websocket.h:616-622 | masking is its own inverse |
| WebSocket.StoredLength | crow/websocket.h:314-317 | the two swapped halves stored in memory are the length, most significant byte first |
| WebSocket.LoadedLength | crow/websocket.h:478-482 | the swap of the 64 bits read is the number that the bytes spell |
| WebSocket.BuildHeader | crow/websocket.h:298-319 | the header of a final unmasked frame with the shortest length encoding |
| WebSocket.FrameReader.ReadMiniHeader | crow/websocket.h:369-423 | final bit, opcode, mask bit and length encoding are those of the frame |
| WebSocket.FrameReader.ReadLen16 | crow/websocket.h:437-461 | the 16-bit length |
| WebSocket.FrameReader.ReadLen64 | crow/websocket.h:475-497 | the 64-bit length |
| WebSocket.FrameReader.ReadMask | crow/websocket.h:510-557 | a frame above the payload limit is refused, otherwise the mask is read if there is one |
| WebSocket.FrameReader.ReadPayload | crow/websocket.h:558-582 | any piece of the payload is appended, and the frame handled when none is missing |
| WebSocket.FrameReader.Unmask | crow/websocket.h:616-622 | the loop takes the mask off in place |
| WebSocket.FrameReader.HandleFragment | crow/websocket.h:614-712 | the final bit, opcode and unmasked payload in hand are the frame's, and are handled by the opcode |
| WebSocket.FrameReader.ReadFrame | crow/websocket.h:355-596 | the reader states recover final bit, opcode and payload of every frame, in any length encoding and any payload pieces, or refuse it for its length exactly |
| WebSocket.FrameReader.ReadAll | crow/websocket.h:355-596 | any stream of frames: final bit, opcode and payload of each are handled up to the first close frame or the first frame above the limit |
| WebSocket.PingsAnswered | crow/websocket.h:698-702 | every ping is answered with its own data, in order |
| WebSocket.MessageReassembled | crow/websocket.h:625-659 | a fragmented message reaches the handler whole and with its type, and leaves nothing behind |
| WebSocket.MessagesReassembled | crow/websocket.h:614-712 | the handler sees exactly the messages sent, in order, whatever pings and pongs come in between |
| WebSocket.ReceiveMessages | crow/websocket.h:355-712 | from bytes to messages, for all fragmentations, masks and payload pieces |
| WebSocket.SendAndReceive | crow/websocket.h:298-596 | for every opcode and length within the limit the reader finds the final bit, opcode and payload that the writer sent |
| WebSocketBytes.XorExactly | crow/websocket.h:616-622 | the masking of a byte is the exclusive or: a bit is set exactly where the two bytes differ |
| WebSocketBytes.ZeroMask | crow/websocket.h:616-622 | a mask byte of zero leaves a byte as it is |
| WebSocketBytes.MaskedBits | crow/websocket.h:616-622 | byte i of the payload is masked by byte i modulo 4 of the mask, bit by bit, and the two determine that byte of the mask |
| WebSocketBytes.LengthByte | crow/websocket.h:298-319 | the bytes of a length are its digits to the base 256, the most significant first |
| WebSocketBytes.ReceiveHello | crow/websocket.h:355-712 | the masked example of section 5.7 of RFC 6455 reaches the handler as its text, in any payload pieces |
| WebSocketBytes.SendExamples | crow/websocket.h:298-319 | the headers of the unmasked examples of section 5.7 of RFC 6455 |
| Multipart.ParamRoundTrip | crow/multipart.h:247-271 | a parameter is read back, with its quotes taken off |
| Multipart.LineRoundTrip | crow/multipart.h:226-262 | a header line is read back |
| Multipart.HeadRoundTrip | crow/multipart.h:220-264 | all header lines of a part are |
| Multipart.HeadEnds | crow/multipart.h:207-218 | the empty line behind the headers is the first one found |
| Multipart.SectionRoundTrip | crow/multipart.h:207-218 | a part with headers is read back |
| Multipart.DelimiterFound | crow/multipart.h:183-195 | the delimiter behind a part is the first one found |
| Multipart.PartsRoundTrip | crow/multipart.h:178-205 | parts with names are read back in order |
| Multipart.SectionHasHeader | crow/multipart.h:220-264 | a section that was read always has a header |
| Multipart.BodyHasNames | crow/multipart.h:196-203 | every part of a message that was read has a Content-Disposition header with a name |
| Multipart.ReloadsExactly | crow/multipart.h:97-218 | reading undoes writing if and only if every part has a Content-Disposition header, in any case, with a name |
| Multipart.UnnamedPartLost | crow/multipart.h:199-201 | a part with a header and no name is written and not read back |
| Multipart.MultipartMessage.ReadHead | crow/multipart.h:220-264 | the loop that eats up the lines collects the headers of the specification |
| Multipart.MultipartMessage.ReadBody | crow/multipart.h:178-205 | the loop that eats up the body collects the parts of the specification and enters each under its name, or fails with it |
| Multipart.MultipartMessage.SetParts | crow/multipart.h:131-143 | a message made of parts enters each under its name, if and only if all have one |
| Multipart.MultipartMessage.PartByName | crow/multipart.h:87-94 | finds a part whose name is the same but for case, if there is one |
| Multipart.MultipartMessage.Write | crow/multipart.h:97-109 | the dump loop writes the specified text |
| Multipart.MultipartMessage.WritePart | crow/multipart.h:112-128 | so does the loop of one part |
| Multipart.WriteAndRead | crow/multipart.h:97-218 | a message object written and read again gives the same parts if and only if all have names |
| Multipart.SameKeyExactly | crow/utility.h:818-831 | keys are the same exactly when they differ at most in the case of letters |
| Multipart.FormText | crow/multipart.h:97-128 | the text of a form with two fields, line by line |
| QueryString.DecodeUndoesEncode | crow/query_string.h:144-170 | decoding undoes percent-encoding, for every byte string |
| QueryString.QsDecode | crow/query_string.h:144-170 | a value is decoded in place and closed by a NUL, and nothing outside its room is touched |
| QueryString.QueryLaysOut | crow/query_string.h:98-123 | the joined text of the pairs puts each at its place |
| QueryString.FindPairs | crow/query_string.h:115-123 | the starts of the first 256 pairs |
| QueryString.DecodePairs | crow/query_string.h:125-134 | after the loop every pair holds its key and its decoded value |
| QueryString.QsParse | crow/query_string.h:98-141 | parsing a URL or a query alone leaves the first 256 pairs decoded; no pairs without a query |
| QueryString.StrNCmp | crow/query_string.h:52-95 | the comparison loop with its decoding of both sides |
| QueryString.CompareKeys | crow/query_string.h:52-95 | the comparison is 0 if and only if both keys, escaped or not, decode to the same, and the raw key to its end when the other is written without escapes |
| QueryString.K2V | crow/query_string.h:173-201 | points to the value of the first pair whose key matches, or to nothing |
| QueryString.QueryParams.Get | crow/query_string.h:369-373 | get answers the decoded value of the first of the first 256 pairs whose key matches, name and value as C strings |
| QueryString.FormKeysMatch | crow/query_string.h:52-95 | a name, as it is or percent-encoded, matches exactly the percent-encoded keys that are this name |
| QueryString.FormLookup | crow/query_string.h:333-373 | for every form with percent-encoded keys and values get answers the value of the name itself |
| PercentEncoding.HexExactly | crow/query_string.h:48-49 | hexadecimal digits of both cases are read as their value |
| PercentEncoding.ValueMeaning | crow/query_string.h:144-170 | however the bytes of a value are written, with percent signs and digits of either case, plus signs or as they are, these bytes are decoded |
| PercentEncoding.ValueFound | crow/query_string.h:144-170 | what is decoded is written in this way, up to the character that ends the value or a percent sign without two digits |
| Sha1.MixedForm | crow/TinySHA1.hpp:176-191 | the round functions as written are those of FIPS 180-4 |
| Sha1.RotateForm | crow/TinySHA1.hpp:52-54 | the rotation with an exclusive or is the standard's rotation |
| Sha1.Hasher.FillSchedule | crow/TinySHA1.hpp:158-167 | the two loops fill the message schedule |
| Sha1.Hasher.ProcessBlock | crow/TinySHA1.hpp:157-205 | the block is compressed into the digest |
| Sha1.Hasher.ProcessByte | crow/TinySHA1.hpp:75-83 | one more byte: whole blocks are in the digest, the rest is in the block |
| Sha1.Hasher.ProcessBytes | crow/TinySHA1.hpp:84-97 | any number of bytes |
| Sha1.Hasher.GetDigest | crow/TinySHA1.hpp:98-124 | the digest of the message with the padding that the code feeds |
| Sha1.PaddingExact | crow/TinySHA1.hpp:99-120 | that padding is the standard's if and only if the message is shorter than 2^29 bytes |
| Sha1.HashAll | crow/TinySHA1.hpp:75-124 | however a message is split over calls, its digest is the standard's |
| Sha1.WordNumber | crow/TinySHA1.hpp:159-164 | a word is the number that its four bytes spell to the base 256 |
| Sha1.PlusModulo | crow/TinySHA1.hpp:200-204 | addition is modulo 2^32 |
| Sha1.SumModulo | crow/TinySHA1.hpp:192-192 | so is the sum of a round |
| Sha1.RotateByOne | crow/TinySHA1.hpp:165-167 | rotation by one: what leaves the word at the top comes back at the bottom |
| Sha1.RotateByFive | crow/TinySHA1.hpp:192-192 | rotation by five |
| Sha1.RotateByThirty | crow/TinySHA1.hpp:195-195 | rotation by thirty |
| Sha1.ChooseBits | crow/TinySHA1.hpp:178-179 | in the first rounds each bit is that of the second or third word, chosen by the first |
| Sha1.MajorityBits | crow/TinySHA1.hpp:184-185 | in the third rounds each bit is the one that two of the three words have |
| Middleware.Pack | crow/routing.h:68-72 | sorted, without duplicates, with the same members |
| Middleware.Criteria.Enabled | crow/middleware.h:286-328 | asked in order, each slider answers yes exactly for the members of its list |
| Middleware.MembersOfIndices | crow/middleware.h:286-328 | the enabled middleware is the packed list itself |
| Middleware.Exchange.BeforeHandlers | crow/middleware.h:136-171 | before calls run in order on a prefix, and if one ends the response the after calls run on that prefix in reverse |
| Middleware.Exchange.AfterHandlers | crow/middleware.h:173-200 | the after calls of all enabled middleware in reverse |
| Middleware.Exchange.CompleteRequest | crow/http_connection.h:216-232 | the after calls are left to this method exactly when the handler ran |
| Middleware.Exchange.HandleRule | crow/routing.h:1710-1744 | the middleware of a rule makes a bracket inside the global one |
| Middleware.Exchange.Handle | crow/http_connection.h:183-213 | global and rule middleware make one bracket around the handler, which runs only if nobody ended the response |
| Middleware.BracketMirrors | crow/middleware.h:136-200 | every entered middleware is left at the mirrored place of the trace |
| Middleware.CalledOnce | crow/middleware.h:136-200 | a middleware that was entered is left exactly once, and no other is called |
| Admission.StepInvariant | src/main.cpp:107-142 | every atomic step of every request keeps the invariant of the counters |
| Admission.BusyWithinLimit | src/main.cpp:125-134 | admitted unfinished requests never exceed the limit, although the counter itself may |
| Admission.Safety | src/main.cpp:107-142 | in every interleaving the counter is the number of requests that hold an increment, the limit is kept, and the counter is 0 at quiescence |
| Admission.CountedExactlyOnce | src/main.cpp:112-135 | in every state of every run each business request that has left the middleware is counted as exactly one of shutdown-rejected, overload-rejected or admitted, and nobody else is |
| Admission.NoAdmissionAfterShutdown | src/main.cpp:117-123 | a request that loads the shutdown flag after it is set is never admitted and never touches the counter |
| Admission.DrainIsFinal | src/main.cpp:246-258 | the flag is set only after a signal, never taken back, and the server stops only behind it |
| Admission.LifecycleBracketed | src/main.cpp:240-240 | the step that gives the increment back is called exactly once, whichever later middleware ends the response |
| Admission.Lifecycle.BeforeHandle | src/main.cpp:112-135 | what the middleware does to a probe, with the flag set, without room and with room, and that these are the atomic steps of the protocol, one after the other |
| Admission.Lifecycle.AfterHandle | src/main.cpp:137-141 | its counterpart gives back the increment that the request holds |
| Verdicts.VerdictExactly | src/main.cpp:112-135 | in every run a business request is rejected by shutdown if and only if it loaded the flag when it was set, rejected by overload if and only if it loaded the flag before and made its increment when at least the limit of other requests held one, and let in if and only if it found neither |
| Verdicts.NoSignalNoShutdown | src/main.cpp:117-123 | in a run without a signal nobody is rejected by shutdown |
| Verdicts.Progress | src/main.cpp:112-135 | every step of a request brings it nearer to its verdict, whatever the others do |
| Verdicts.AdmittedWhenFree | src/main.cpp:112-135 | a business request that takes its six steps while the flag is not set and fewer than the limit of others hold an increment is let in |
| OrderCache.StepFromInserts | src/order_routes.cpp:47-113 | every step keeps the cache to data of inserts that were made |
| OrderCache.CachedAnswerIsRecentInsert | src/order_routes.cpp:72-96 | in every run with any failures, a cached answer is the data of an earlier insert, written less than the time to live ago |
| OrderCache.StaleIsBounded | src/order_routes.cpp:166-169 | when the time to live has passed without a cache write, get_order asks the database |
| OrderCache.RunRowFits | src/order_routes.cpp:116-319 | in every run the row of an order is what the last change of the order left |
| OrderCache.StaleExactly | src/order_routes.cpp:166-197 | in every run, with any failures and overlap, a cached answer carries an earlier insert and disagrees with the database if and only if the order was paid, deleted or created again with other data since then |
| OrderCache.StepCoherent | src/order_routes.cpp:116-319 | every step of a run without overlap and with carried-out invalidations keeps cache and database coherent |
| OrderCache.GetAgrees | src/order_routes.cpp:166-197 | in such a run get_order answers what the database says |
| OrderCache.OverlapGoesStale | src/order_routes.cpp:145-163 | a run in which a payment overtakes the cache write and the answer is stale |
| OrderCache.LostInvalidationGoesStale | src/order_routes.cpp:98-113 | a run in which a lost invalidation makes the answer stale |
| OrderAnswers.AnswersExactly | src/order_routes.cpp:116-319 | in every run, what creations, payments and removals answer, if and only if they found and did what: a paid order is refused, a stored one answered with the amount asked for, a removed one confirmed |
| OrderAnswers.AsAsked | src/order_routes.cpp:128-130 | every handler works for the order and amount it was started with |
| OrderAnswers.StepRow | src/order_routes.cpp:116-319 | what each step does to the row of an order |
| OrderAnswers.RowExactly | src/order_routes.cpp:116-319 | in every run an order has a row if and only if it was stored and not removed since; the row keeps the amount and time of that creation, and is paid if and only if it was paid since |
| OrderAnswers.PaidAtLast | src/order_routes.cpp:233-247 | the row tells the time of the last payment |
| OrderAnswers.SelectAnswers | src/order_routes.cpp:171-197 | what get_order answers from the database; the time of the payment is there exactly when the order is paid |
| OrderAnswers.PaidTwiceOnlyByOverlap | src/order_routes.cpp:213-247 | in every run a payment is carried out on a paid order only if another one was carried out between its SELECT and its UPDATE |
| OrderAnswers.OverlapPaysTwice | src/order_routes.cpp:213-247 | a run in which two payments of one order are both confirmed |
| Metrics.StepInvariant | include/metrics.h:21-29 | every atomic step keeps sum, number and maximum right for what has been observed |
| Metrics.MaximumGrows | include/metrics.h:25-28 | in every interleaving the recorded maximum never decreases |
| Metrics.FinalMetrics | include/metrics.h:21-29 | when all observations are finished, sum, number and maximum are exact |

## Left out

- Mustache: finding the tags in the template text, partials, functions as values, changes of delimiters and the trimming of stand-alone lines; the model starts from fragments and tags.
- Router: blueprint indices of a search, whose pushes and pops do not match; the trie's nodes are values that are replaced along a path, not nodes behind pointers.
- Router.Trie.Add: only for rule texts without NUL and with known placeholders; others end in an exception or an assertion.
- RouteTrie: strtoll, strtoull and strtod are left open as any scanners that use at least one character.
- RouteTrie.TrieRefinesLinearScanWithParams: parameters only for rules with different indices; the redirect index 1 may be shared.
- Json: floating-point printing, non-integer numbers beyond their text, lookup of members by sorted key.
- JsonBuffer: the parser collects children in a sequence; the growing array is modelled beside it in Children.
- JsonBuffer.Children.EmplaceBack: for fewer than 2^30 children, where the sizes fit an int.
- HttpBody: the request line and header fields, upgraded connections, and what a cleared parser does with the next request.
- HttpMessages.ChunkedDecoded: for chunked messages without trailer fields, which go through the header states; so does ReceiveChunked.
- HttpMessages.ReceiveChunked: without trailer fields, like ChunkedDecoded.
- WebSocket: the handshake, sending queues, the number of close-handler calls and the destruction of the connection; header reads deliver all bytes they ask for.
- Multipart: the order in which unordered maps list headers and parameters, and which of several entries with the same key they find; the boundary in the header.
- QueryString: lists, dictionaries and pop; keys with a fragment mark.
- Sha1: the bytes of the digest in getDigestBytes.
- Middleware: unrouted and upgraded requests, which do not follow the bracket.
- Admission: unrouted requests, which run after calls on an old context; atomics are sequentially consistent and counters unbounded.
- OrderCache: validation of requests, listing of orders, error counters; the handlers are steps on a value, not methods, and a database step that fails changes nothing; a SELECT that fails counts as one that could not be prepared.
- Metrics: 64-bit wrap-around of the sum.
