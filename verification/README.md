# Verified models of a web server's text processing

The server reads an Nginx-style configuration, parses HTTP requests, checks Basic authentication, proxies requests and
their responses, and renders Markdown pages. This project models the parts of it in which text is taken apart, changed
and put together again, and proves what those parts promise, for all inputs.

The code that updates things in place is modelled in place: markers that point to each other in a list that grows while
it is walked, configuration blocks that are grown under an explicit stack, request, response, realm and document objects
whose fields are assigned, streams that are read and put back, a table that is filled in, a cursor that moves and rolls
back. Each method is proved against a function or a relation on values, and the theorems are about those.

## The parts and their main results

**Emphasis in Markdown** (`Emphasis*.dfy`). The input is a list of text tokens and open and close markers of size 1 to 3.
Two nested loops pair markers, splitting markers of size 3 and inserting the parts into the list; a second pass with a
stack takes crossing pairs apart.

* The loops are a machine whose steps the method follows one by one. Every step, on every list, keeps the pairing mutual,
  in order and of equal character and size, and keeps the source text.
* The loops end if and only if they never compare an open and a close marker of size 3 with different characters. A dry
  run that always ends decides this beforehand, and it holds for every list without such a pair of markers. If the first
  open marker and the first close marker after it are such a pair, as in `***` and `___`, the code runs for ever.
* When they end, no free open marker has a later free close marker it could have been paired with.
* The two parts of a split marker come in the order in which their pairs nest, if the marker is split for one of its own
  character. The code also splits for a marker of another character, and then the pairs of the parts can cross.
* The second pass takes apart exactly the pairs that another pair crosses from inside, which is nothing if and only if
  the pairs nest already; its stack is never empty where it is read. The surviving pairs nest, and the tags found in the
  text that is written for the list are balanced. It is said which pairs could have stayed.
* Without its tags, the text that is written is, in order, the source of everything that is not a paired marker.

**Configuration** (`Config*.dfy`). A five-state lexer with one character of look-ahead, a parser with a stack of open
blocks, and a printer.

* A text is parsed to a tree exactly when the tree is well formed and not empty and its words and punctuation are those
  that the lexer delivers from the text: the parser loses, invents and moves nothing.
* The lexer drops a word exactly when the text ends in a bare word, which a simple automaton over the characters tells;
  it is then that word alone. A line feed at the end changes nothing about an accepted text that does not end so, and
  makes one that does be refused. Anything without a character that ends words can follow an accepted text unnoticed.
* Any layout of the words and punctuation, with white space and comments between them, is parsed alike; the characters
  that begin and end words, quotes and comments are spelled out.
* Printing a tree at any depth and parsing the text gives the tree back exactly when it is well formed and not empty.

**HTTP messages** (`HttpRequest`, `RequestObject`, `HttpResponse`, `ResponseObject`, `Utils`). Writing a request or a
response and parsing the text gives it back exactly when it is well formed; every request that the parser accepts is well
formed, so it survives being written and parsed, and also the changes that the proxy makes in between. For responses the
redirect that the proxy remembers is part of the result. The lines that are accepted as a request, and the request they
stand for, are characterized exactly, and so are the header lines of responses; the number that announces a body is read
for every spacing, sign and length of it, and a location is taken apart into host and path.

**Base64 and Basic authentication** (`Base64*.dfy`, `Authentication.dfy`). The bit accumulators compute the 24-bit groups
of RFC 4648 section 4, whatever a machine word does to all but the low 12 bits of the accumulator, and decoding undoes
encoding. A request passes exactly when the realm with the longest name that begins its address stores the password that
is read back, and the header that sends it is characterized to the character; a right password is accepted exactly when it
is not empty and has no colon.

**Markdown text** (`MarkdownLines`, `MarkdownCode`, `MarkdownEscapes`, `MarkdownRestoring`). All four newline
conventions give back all lines; for any mix of line ends it is said which lines the reader sees, and exactly when it sees
all of them. Tabs end on tab stops and expanding them loses nothing. A code block is the longest run of indented lines and
blank lines between them. Escaping and then restoring a text gives back every character and every replaced item as it was
written, and for an arbitrary text it gives the text back exactly when no byte 1 of it begins a placeholder.

## Where the code differs from what it is expected to do

* The pairing loops do not end on some lists of markers: exactly those on which the dry run meets a clash
  (`EmphasisTermination.HaltsIffClashFree`).
* A marker of size 3 is split for a marker of another character, too, and its parts can then be paired so that they cross
  and one of the pairs is taken apart again (`EmphasisExamples.CloseSplitForOther`, `EmphasisExamples.OpenSplitForOther`).
  Otherwise they nest (`EmphasisSplits.SharedCloseNests`, `EmphasisSplits.SharedOpenNests`).
* The unmatching pass takes a pair apart for the sake of one that it takes apart as well (`Matching.CouldStayIff`,
  `Matching.FirstOfChainCouldStay`).
* A configuration may end in a cut-off word, which is lost: exactly when the text ends in a bare word
  (`ConfigEnd.NothingLostUnlessCutOff`, `ConfigEnd.NewlineChangesNothing`). A configuration without statements is refused
  (`ConfigGrammar.PrintThenParse`).
* Splitting drops a last empty field (`Utils.SplitJoin`), so an empty password cannot be sent, one with a colon is
  refused, and a colon at the end of a password is ignored (`Authentication.RightPasswordPasses`,
  `Authentication.OtherPasswordPasses`).
* The announced length of a body is reduced to a signed 32-bit number (`HttpRequest.AnnouncedBody`), and a location without
  a scheme leads elsewhere exactly when its host is `http:` and two slashes follow (`HttpResponse.FollowPlain`).
* A text that contains the byte 1 can be mistaken for a placeholder: exactly when a byte 1 of it begins one in the
  escaped text (`MarkdownRestoring.RestoredIffClean`).
* A line is lost where its end runs into the end of the line before: exactly when the list of lines is not kept
  (`MarkdownLines.LinesKept`).

## Model

| member | source | states |
|---|---|---|
| EmphasisModel.StepKeepsPairing | cpp-markdown-100/markdown-tokens.cpp:509-560 | every iteration of the pairing loops, on any list, keeps pairs mutual, the open marker first, equal in character and size, and their ids distinct |
| EmphasisModel.RunKeepsPairing | cpp-markdown-100/markdown-tokens.cpp:509-560 | so does a run of any length |
| EmphasisModel.SplitKeepsPairing | cpp-markdown-100/markdown-tokens.cpp:519-531 | splitting a free marker leaves all pairs as they are |
| EmphasisModel.StepKeepsSource | cpp-markdown-100/markdown-tokens.cpp:519-555 | every iteration, on any list, keeps the source text that the texts and the markers not disabled stand for |
| EmphasisModel.RunKeepsSource | cpp-markdown-100/markdown-tokens.cpp:509-560 | so does a run of any length |
| EmphasisTermination.StepMakesProgress | cpp-markdown-100/markdown-tokens.cpp:510-560 | short of a clash, an iteration keeps the sizes in 1..3 and lowers a measure, although it may grow the list |
| EmphasisTermination.NoClashHalts | cpp-markdown-100/markdown-tokens.cpp:510-560 | a run that never clashes ends |
| EmphasisTermination.ClashNeverHalts | cpp-markdown-100/markdown-tokens.cpp:519-555 | a run that clashes goes on for ever, splitting the same marker again and again |
| EmphasisTermination.HaltsIffNeverClashes | cpp-markdown-100/markdown-tokens.cpp:510-560 | for markers of size 1..3 the loops end if and only if they never reach a clash |
| EmphasisTermination.ClashFreeNeverClashes | cpp-markdown-100/markdown-tokens.cpp:510-560 | a dry run, which itself always ends, decides whether the loops reach a clash |
| EmphasisTermination.HaltsIffClashFree | cpp-markdown-100/markdown-tokens.cpp:510-560 | for markers of size 1..3 the loops end if and only if the dry run meets no clash |
| EmphasisTermination.CompatibleHalts | cpp-markdown-100/markdown-tokens.cpp:510-560 | the loops end on every list in which no open marker of size 3 is followed by a close marker of size 3 of another character |
| EmphasisTermination.FirstPairNeverHalts | cpp-markdown-100/markdown-tokens.cpp:510-555 | if the first free open marker and the first free close marker after it are of size 3 and differ in character, the loops never end |
| EmphasisTermination.ClashingPairNeverHalts | cpp-markdown-100/markdown-tokens.cpp:542-555 | on an open `***` followed by a close `___` the loops never end |
| EmphasisMaximal.RunSettles | cpp-markdown-100/markdown-tokens.cpp:510-560 | the open markers passed so far have no later close marker they could be paired with, at every point of a run |
| EmphasisMaximal.HaltedIsMaximal | cpp-markdown-100/markdown-tokens.cpp:510-560 | when the loops end, no free open marker has a later free close marker that it could be paired with, even after a split |
| EmphasisSplits.SplitForSmallOpen | cpp-markdown-100/markdown-tokens.cpp:517-541 | a close marker of size 3 is split for a smaller open marker of any character; within three steps the second part is paired with that marker if the characters agree, and the search has passed both parts if they do not |
| EmphasisSplits.SharedCloseNests | cpp-markdown-100/markdown-tokens.cpp:517-541 | if the characters agree, then in any list and at every later step the second part stays paired with that marker and the pair of the first part, if there is one, lies inside |
| EmphasisSplits.SharedOpenNests | cpp-markdown-100/markdown-tokens.cpp:542-555 | an open marker of size 3 split for a smaller close marker of its character: in any list the second part is paired in the end, and at every later step the pair of the first part, if there is one, goes round it |
| EmphasisExamples.CloseSplitForOther | cpp-markdown-100/markdown-tokens.cpp:517-541 | four markers with a close marker of size 3 that is split for an open marker of another character: the pairs of its parts nest exactly when the first open marker in between has the size of the second part, and cross otherwise |
| EmphasisExamples.OpenSplitForOther | cpp-markdown-100/markdown-tokens.cpp:542-555 | four markers with an open marker of size 3 that is split for a close marker of another character: the pairs of its parts nest exactly when the first of the other close markers has the size of the second part, and cross otherwise |
| EmphasisExamples.SharedClose | cpp-markdown-100/markdown-tokens.cpp:519-541 | an example: the final state for one list of two open markers of one character and a close marker of size 3 |
| EmphasisExamples.SharedOpen | cpp-markdown-100/markdown-tokens.cpp:542-555 | an example: the final state for one list of an open marker of size 3 and two close markers of its character |
| Matching.UncrossNests | cpp-markdown-100/markdown-tokens.cpp:562-580 | the pairs that no other pair crosses from inside are a matching and never cross |
| Matching.UncrossKeepsNested | cpp-markdown-100/markdown-tokens.cpp:562-580 | some pair is taken apart if and only if some pairs cross, and a second pass changes nothing |
| Matching.CouldStayIff | cpp-markdown-100/markdown-tokens.cpp:562-580 | a pair could stay beside all survivors without crossing one exactly when every pair that crosses it from inside is taken apart too |
| Matching.FirstOfChainCouldStay | cpp-markdown-100/markdown-tokens.cpp:562-580 | of three pairs that cross in a chain two are taken apart, although the first of them crosses no survivor |
| Matching.TopDecides | cpp-markdown-100/markdown-tokens.cpp:571-577 | at a matched close marker the stack is not empty, and its top is that marker's partner exactly when no pair crosses theirs from inside |
| Matching.StillOpenIsExact | cpp-markdown-100/markdown-tokens.cpp:562-580 | between nested pairs, a stack pushed at opens and popped at closes holds at each position the pairs open there, in order |
| EmphasisNesting.MatesAreUnique | cpp-markdown-100/markdown-tokens.cpp:535-541 | a well-paired list has exactly one pairing of positions |
| EmphasisNesting.UncrossNests | cpp-markdown-100/markdown-tokens.cpp:562-580 | after the unmatching pass the list is well paired, its pairs nest, and they are exactly the pairs that no pair crossed from inside |
| EmphasisNesting.UncrossKeepsSource | cpp-markdown-100/markdown-tokens.cpp:562-580 | the unmatching pass keeps the source text |
| EmphasisNesting.ReadPrefix | cpp-markdown-100/markdown-tokens.cpp:737-748 | at each position the elements opened by the tags before it and not closed are those of the pairs open there |
| EmphasisNesting.NestedIsBalanced | cpp-markdown-100/markdown-tokens.cpp:737-748 | the tags written for a list whose pairs nest are balanced, size 3 being strong around em |
| EmphasisHtml.ScanHtml | cpp-markdown-100/markdown-tokens.cpp:737-748 | if no text has an opening angle bracket, the emphasis tags found in the written text, from left to right, are the tags of the markers |
| EmphasisHtml.WrittenIsBalanced | cpp-markdown-100/markdown-tokens.cpp:737-748 | so the emphasis tags in the text written for nested pairs are balanced |
| EmphasisHtml.MarkerHtml | cpp-markdown-100/markdown-tokens.cpp:737-748 | the text of every marker at each size: em for 1, strong for 2, em in strong for 3, the characters of a free marker, nothing for a disabled one; text tokens stay as they are |
| EmphasisHtml.UnpairedIsSource | cpp-markdown-100/markdown-tokens.cpp:737-748 | a list without pairs is written as its source, whatever is in it |
| EmphasisHtml.StrippedIsUnpaired | cpp-markdown-100/markdown-tokens.cpp:737-748 | the written text without the emphasis tags found in it is, in order, the source characters of the tokens that are not paired |
| EmphasisHtml.SourceIsWrittenBalanced | cpp-markdown-100/markdown-tokens.cpp:509-580 | from the source to the text: whenever pairing ends on a source without an opening angle bracket, the emphasis tags found in the written text are those of the markers and they balance, and without them the text is the source without the paired markers |
| EmphasisNesting.PairedThenUncrossed | cpp-markdown-100/markdown-tokens.cpp:509-580 | whenever pairing ends, the list after the unmatching pass is well paired, nests, has balanced tags and keeps the source text |
| Emphasis.BoldOrItalicMarker.constructor | cpp-markdown-100/markdown-tokens.h:341-343 | a new marker is free |
| Emphasis.BoldOrItalicMarker.Matched | cpp-markdown-100/markdown-tokens.h:359 | sets the partner and the id and leaves the other fields |
| Emphasis.BoldOrItalicMarker.Disable | cpp-markdown-100/markdown-tokens.h:361 | a disabled marker can no longer be matched |
| Emphasis.BoldOrItalicMarker.WriteAsHtml | cpp-markdown-100/markdown-tokens.cpp:737-748 | writes what the tag model says: tags of a matched marker, nothing for a disabled one, the source characters otherwise |
| Emphasis.SplitMarker | cpp-markdown-100/markdown-tokens.cpp:519-555 | disables the marker and inserts its two parts after it, the leftovers first; all links in the list stay intact |
| Emphasis.MatchMarkers | cpp-markdown-100/markdown-tokens.cpp:535-541 | the two markers point to each other under the id, nothing else changes, and all links stay intact |
| Emphasis.Compare | cpp-markdown-100/markdown-tokens.cpp:517-556 | comparing an open and a close marker pairs them, splits one of them or passes on as the machine does |
| Emphasis.FindClose | cpp-markdown-100/markdown-tokens.cpp:514-558 | the inner loop takes the machine from the start of a search to the next position of the outer loop, and ends |
| Emphasis.PairMarkers | cpp-markdown-100/markdown-tokens.cpp:509-560 | the loops over the shared markers end in the state in which the machine ends |
| Emphasis.UnmatchMarkers | cpp-markdown-100/markdown-tokens.cpp:571-573 | both markers of the pair become free, nothing else changes, and all links stay intact |
| Emphasis.PopUnmatched | cpp-markdown-100/markdown-tokens.cpp:575-577 | pops exactly the unmatched markers on top of the stack, up to one that is still matched |
| Emphasis.ReachClose | cpp-markdown-100/markdown-tokens.cpp:568-578 | at a matched close marker the pass takes the pair apart exactly when it is crossed, and the stack goes on to hold every pair still open, with an open one on top |
| Emphasis.UnmatchCrossing | cpp-markdown-100/markdown-tokens.cpp:562-580 | the pass with the stack computes the list without its crossed pairs |
| Emphasis.WriteAsHtml | cpp-markdown-100/markdown-tokens.cpp:737-748 | writes the tokens of the list in order |
| Emphasis.ProcessBoldAndItalicSpans | cpp-markdown-100/markdown-tokens.cpp:509-580 | given a list that passes the dry run, ends with mutual, nested pairs, balanced tags and the same source text; if that has no opening angle bracket, the tags found in the text written for the list balance too, and without them it is the source without the paired markers |
| ConfigLexer.ParseToken | src/config_parser.cc:67-148 | the loop over the stream delivers the token of the lexer function and leaves the stream where that token ends |
| ConfigLexer.LexGivesWords | src/config_parser.cc:67-148 | every delivered word is one bare or quoted word |
| ConfigLexer.LexWord | src/config_parser.cc:109-137 | a word before a character that ends words is delivered as it stands, and the next token starts at that character |
| ConfigLexer.LexCutOff | src/config_parser.cc:141-147 | a bare word at the very end of the text is reported as the end of the text |
| ConfigLexer.LexBareCharacters | src/config_parser.cc:99-137 | in characters: a bare word begins with none of white space, `;{}`, quotes and `#`, and goes up to the next space, tab, line feed, `;{}` or quote; at the end of the text it is not delivered |
| ConfigLexer.LexQuotedCharacters | src/config_parser.cc:84-124 | in characters: a quoted word goes up to the next quote of its kind, and without one there is an error |
| ConfigLexer.LexCommentCharacters | src/config_parser.cc:81-83 | in characters: a comment goes from `#` to the next line feed or carriage return |
| ConfigLexer.LexOtherCharacters | src/config_parser.cc:74-98 | in characters: space, tab, line feed and carriage return are skipped before a token, and `;`, `{` and `}` are tokens |
| ConfigLexer.LexemesAreWords | src/config_parser.cc:67-148 | all words among the lexemes of a text are bare or quoted words |
| ConfigTree.LexPrinted | src/config_parser.cc:20-51 | the lexemes of a printed tree, at any depth and before any text, are the words and punctuation of the tree |
| ConfigTree.IndentIsSpaces | src/config_parser.cc:29-32 | the indent is two spaces for each level |
| ConfigTree.JoinsWithSpaces | src/config_parser.cc:33-38 | the tokens are joined by single spaces |
| ConfigTree.PrintedStatement | src/config_parser.cc:28-51 | the exact text of a statement at any depth, with or without a block, given spaces and joined tokens |
| ConfigTree.PrintedTogether | src/config_parser.cc:20-26 | the statements of a block are written one after the other |
| ConfigGrammar.AdvanceKeepsValid | src/config_parser.cc:169-230 | after each token all complete statements are well formed, the statement being read has a token exactly after a word, and every open block belongs to a statement with tokens |
| ConfigGrammar.AdvanceHolds | src/config_parser.cc:169-230 | each token adds exactly itself to the words and punctuation that the open blocks hold |
| ConfigGrammar.ParseIsFaithful | src/config_parser.cc:150-231 | an accepted text gives a well-formed, non-empty tree whose words and punctuation are those that the lexer delivers |
| ConfigGrammar.ParsesExactlyTrees | src/config_parser.cc:150-231 | a text is parsed to a tree if and only if the tree is well formed and not empty and has the lexemes that the lexer delivers from the text |
| ConfigLayout.LayoutIsRead | src/config_parser.cc:67-148 | the lexer finds exactly the words and punctuation of a text made of words, punctuation, white space and comments in any layout |
| ConfigLayout.LayoutIsFree | src/config_parser.cc:150-231 | a text in any layout is parsed to a tree exactly when its words and punctuation are those of the tree |
| ConfigGrammar.PrintThenParse | src/config_parser.cc:20-51 | printing a tree at any depth and parsing it gives the tree if and only if it is well formed and not empty |
| ConfigGrammar.ParsePrintParse | src/config_parser.cc:20-51 | parsing, printing and parsing again gives the first tree, and printing that again the same text |
| ConfigEnd.LexMore | src/config_parser.cc:67-148 | a token that does not reach the end of the text is the same in a longer text, and one that does is continued in the state in which the text ends |
| ConfigEnd.LexemesMore | src/config_parser.cc:67-148 | a longer text has the same lexemes and then those found in the state in which the text ends; a word is cut off exactly when that state is inside a bare word |
| ConfigEnd.CutOffIsLast | src/config_parser.cc:141-147 | a word that is cut off is a bare word, and the text ends in it |
| ConfigEnd.NothingLostUnlessCutOff | src/config_parser.cc:141-147 | the tree of an accepted text has all its words and punctuation if and only if the text does not end inside a bare word; otherwise that word alone is missing |
| ConfigEnd.NewlineChangesNothing | src/config_parser.cc:141-147 | an accepted text with a line feed at its end is parsed to the same tree if it does not end inside a bare word, and refused if it does |
| ConfigEnd.CutOffWordIsDropped | src/config_parser.cc:141-147 | anything without a character that ends bare words can follow an accepted text and changes nothing |
| ConfigParser.ConfigToString | src/config_parser.cc:20-26 | prints the block as the printer on trees does |
| ConfigParser.StatementToString | src/config_parser.cc:28-51 | prints the statement and its block as the printer on trees does |
| ConfigParser.HandleToken | src/config_parser.cc:169-230 | one token changes the blocks on the heap as it changes the tree, or is refused where the grammar refuses it; the stack stays one deeper than the bracket count |
| ConfigParser.HandleEnd | src/config_parser.cc:215-225 | the end is accepted exactly where a statement or a block has just ended and no block is open |
| ConfigParser.Parse | src/config_parser.cc:150-237 | accepts exactly the valid texts, and the blocks grown under the given configuration are the tree of the text |
| Utils.ToInt32 | src/request.cc:56 | the conversion to `int` is in range and differs from the number by a multiple of 2 to the 32 |
| Utils.SplitLine | src/utils.h:6-15 | the loop delivers the fields of the line |
| Utils.FieldsAreClean | src/utils.h:6-15 | no field contains the delimiter |
| Utils.SplitJoin | src/utils.h:6-15 | splitting undoes joining if and only if the last field is not empty |
| Utils.SplitTwo | src/utils.h:6-15 | a line has exactly two given fields if and only if it is the two with the delimiter between them, and perhaps one at the end; an empty second field needs that one |
| Utils.GetCRLFLine | src/utils.h:18-27 | delivers the line without its end and leaves the stream after it |
| Utils.WrittenLine | src/utils.h:18-27 | a line written with CR LF is read back as it was, even if it ends in a carriage return |
| Utils.BareLine | src/utils.h:18-27 | a line can end in a line feed alone, or with the text |
| HttpRequest.ParsedIsWellFormed | src/request.cc:13-72 | every accepted request is well formed: no space or line feed in the request line's fields, no colon in a header name, a body of the announced length |
| HttpRequest.WellFormedIsReadBack | src/request.cc:13-84 | a well-formed request that is written is parsed back as it was |
| HttpRequest.WriteThenParse | src/request.cc:13-84 | writing and parsing gives the request back if and only if it is well formed |
| HttpRequest.ParseWriteParse | src/request.cc:13-84 | parsing an accepted text, writing the request and parsing again gives the same request, also with repeated lengths and padded bodies |
| HttpRequest.NumberRead | src/request.cc:56 | white space, a sign and the digits up to the first other character give the number, 0 without digits, and the nearest 64-bit number if it does not fit |
| HttpRequest.DecimalRead | src/request.cc:56 | a number in decimal notation is read as that number, and as its negative after a minus sign |
| HttpRequest.HeaderLine | src/request.cc:41-53 | a header is the name up to the first colon and the value after any spaces; a line without a colon is none |
| HttpRequest.AnnouncedBody | src/request.cc:13-72 | a request that announces n characters gets the first n that are sent, filled up with NUL characters; n is reduced to a signed 32-bit number, and a version that does not begin with `HTTP/` is refused |
| HttpRequest.WrittenText | src/request.cc:74-84 | the exact text of a request with two headers |
| RequestGrammar.AcceptsExactly | src/request.cc:13-72 | a first line, header lines and what is sent after the empty line are accepted as a given request exactly when the first line is its three fields with single spaces between them, each line is the header in its place, and the body is as long as announced |
| RequestObject.Request.Parse | src/request.cc:13-72 | fills in an object with the value that the text stands for, or gives none exactly where the text is refused |
| RequestObject.Request.ReadHeaders | src/request.cc:36-61 | the loop collects the headers in order up to the empty line, and the length the last Content-Length announces |
| RequestObject.ReadHeader | src/request.cc:41-53 | a line is taken apart at its first colon, without the spaces after it |
| RequestObject.Request.RawRequest | src/request.cc:74-84 | writes the text of the request's value |
| RequestObject.Request.SetUri | src/request_handler.h:23-26 | changes the address and nothing else |
| RequestObject.Request.AddHeader | src/request_handler.h:28-31 | adds the header at the end and changes nothing else |
| RequestObject.Request.RemoveHeader | src/request_handler.h:33-42 | removes the first header of that name, if there is one, and changes nothing else |
| RequestObject.FirstIsRemoved | src/request_handler.h:33-42 | only the first header of the name goes, all other headers of that name and of other names stay in order, and without one nothing changes |
| RequestObject.LastLengthDecides | src/request.cc:55-57 | of several Content-Length headers the last one decides, whatever other headers there are |
| RequestObject.ReplaceKeepsLength | src/proxy_handler.cc:64-68 | replacing any other header leaves the announced length as it was |
| RequestObject.MutatorsKeepRoundTrip | src/proxy_handler.cc:60-77 | a request that the proxy has changed can still be written and parsed back |
| HttpResponse.StatusNumber | src/response.cc:25-39 | each status text begins with the digits of its code and a space, and is one line |
| HttpResponse.StatusTexts | src/response.cc:25-39 | the nine codes that have a text, and their texts |
| HttpResponse.WrittenText | src/response.cc:41-52 | the exact text of a response with two headers |
| HttpResponse.IntegerRead | src/proxy_handler.cc:118-121 | white space, a sign and digits are a number if there is a digit and it fits in 32 bits, and nothing otherwise |
| HttpResponse.FindCRLF | src/proxy_handler.cc:128-147 | the first CR LF after a text without one is found right after it, even if the text ends in a carriage return |
| HttpResponse.WrittenHeaders | src/proxy_handler.cc:129-172 | well-formed headers that are written are read back in order, with the body after them and the redirect they ask for |
| HttpResponse.WellFormedIsReadBack | src/proxy_handler.cc:111-177 | a well-formed response with a listed status that is written is parsed back as it was |
| HttpResponse.WriteThenParse | src/response.cc:41-52 | writing and parsing gives the response back if and only if it is well formed |
| HttpResponse.ParsedIsOk | src/proxy_handler.cc:129-172 | all headers of a parsed response are well formed |
| HttpResponse.NoRedirect | src/proxy_handler.cc:149-169 | without a Location header on a 301 or 302 nothing is remembered |
| HttpResponse.CanFollowIff | src/proxy_handler.cc:153-168 | a location can be followed exactly when there is a slash in it after `http://`, if it begins so |
| HttpResponse.FollowScheme | src/proxy_handler.cc:156-167 | `http://`, a host and a path lead to that path on that host, with the scheme in the host header |
| HttpResponse.FollowPlain | src/proxy_handler.cc:153-167 | a host and a path lead to that path on that host exactly when the host is not `http:` with two slashes after it; a path alone stays on the host |
| HttpResponse.LocationDecides | src/proxy_handler.cc:149-169 | the only Location header decides where the proxy goes if the code is 301 or 302, and does not matter otherwise |
| ResponseGrammar.HeadersRead | src/proxy_handler.cc:129-174 | header lines with any spaces after the colon are read with the body after them, and refused exactly when a location cannot be followed |
| ResponseGrammar.HeadersFound | src/proxy_handler.cc:129-174 | every text whose headers are accepted consists of such lines, an empty line and the body |
| ResponseGrammar.StatusLineRead | src/proxy_handler.cc:111-128 | the number after the first space is the code, whatever comes before and after it in the line; without any space the number comes first |
| ResponseGrammar.ReadsResponse | src/proxy_handler.cc:111-177 | a response in any spacing is read as its code, headers, body and redirect, and refused exactly when a location cannot be followed |
| ResponseObject.Response.SetStatus | src/response.cc:12-14 | changes the status and nothing else |
| ResponseObject.Response.AddHeader | src/response.cc:18-20 | adds the header at the end and changes nothing else |
| ResponseObject.Response.SetBody | src/response.cc:21-23 | changes the body and nothing else |
| ResponseObject.Response.ToString | src/response.cc:41-52 | writes the text of the response's value, or fails exactly where the code has no text |
| ResponseObject.ProxyHandler.FollowLocation | src/proxy_handler.cc:152-168 | remembers the address, host and host header of the new location, or fails where the source throws |
| ResponseObject.ReadHeader | src/proxy_handler.cc:138-147 | takes the header at a position apart and finds where the next one starts |
| ResponseObject.ProxyHandler.ReadHeaders | src/proxy_handler.cc:129-174 | the loop adds the headers in order, follows redirects and sets the body |
| ResponseObject.ProxyHandler.ParseRawResponse | src/proxy_handler.cc:111-177 | builds the response that the text stands for and remembers its redirect, also where the status line has no text or no version |
| Base64.AlphabetAt | src/base64.h:14 | the letters are those of table 1 of RFC 4648 |
| Base64.WriteLetters | src/base64.h:13-16 | the inner loop writes a letter for every six bits that wait |
| Base64.EncodeByteHolds | src/base64.h:10-17 | after each byte the accumulator has written the whole groups and the complete letters of the group begun, and still holds its last byte |
| Base64.EncodeRestIsEncode | src/base64.h:5-25 | from any point on, the loop writes the letters of the groups, whatever the word does to all but the low 12 bits |
| Base64.AccumulatorEncodes | src/base64.h:5-25 | the accumulator computes the groups of RFC 4648 section 4, in 32-bit words as in unbounded numbers |
| Base64.Base64Encode | src/base64.h:5-25 | the loops with a 32-bit accumulator give the groups of RFC 4648 section 4 with padding |
| Base64Decoding.Table | src/base64.h:30-33 | the table gives the six bits of each letter and -1 for every other byte |
| Base64Decoding.DecodeLetterReads | src/base64.h:37-44 | after each letter the accumulator has written the complete bytes and still holds the last letter |
| Base64Decoding.DecodeRestIsDecode | src/base64.h:37-46 | from any point on, the loop writes the bytes of the groups of four letters, whatever the word does to all but the low 12 bits |
| Base64Decoding.AccumulatorDecodes | src/base64.h:27-47 | the accumulator decodes by groups, in 32-bit words as in unbounded numbers |
| Base64Decoding.Base64Decode | src/base64.h:27-47 | the loop with a 32-bit accumulator decodes the letters up to the first character that is none |
| Base64Decoding.DecodeEncode | src/base64.h:5-47 | decoding undoes encoding for every byte string |
| Base64Decoding.EncodeIsInjective | src/base64.h:5-25 | different byte strings have different encodings |
| Base64Decoding.EncodedLength | src/base64.h:21-23 | the encoding has four letters for every three bytes, rounded up |
| Base64Decoding.NonLetterEnds | src/base64.h:37-39 | decoding stops at the first character that is no letter, digit, `+` or `/` |
| Base64Decoding.TestVectors | src/base64.h:5-25 | the test vectors of RFC 4648 section 10, and bytes that give `+` and `/` |
| Authentication.LongestKeyIsLongest | src/utils.h:31-45 | the key found is a non-empty prefix, and no longer prefix is a key; none is found only if no non-empty prefix is one |
| Authentication.MapHasPrefix | src/utils.h:31-45 | the loop delivers the value of the longest prefix that is a key |
| Authentication.NewRealm | src/authenticate.cc:59-61 | a new realm takes over exactly the addresses that begin with its name and are not protected by a longer one |
| Authentication.Authenticator.AddRealm | src/authenticate.cc:59-61 | the realm is stored under its own name, in place of one with that name |
| Authentication.Authenticator.RequestRequiresAuthentication | src/authenticate.cc:7-9 | holds exactly when a realm protects the address |
| Authentication.Authenticator.RequestPassesAuthentication | src/authenticate.cc:11-47 | decides what the first Authorization header and the protecting realm say |
| Authentication.Authenticator.GenerateFailedAuthenticationResponse | src/authenticate.cc:49-57 | the refusal names the realm with the longest name that begins the address, and no realm where there is none |
| Authentication.FirstCounts | src/authenticate.cc:15-37 | the first Authorization header counts, whatever headers come before and after it |
| Authentication.PassesIffAccepted | src/authenticate.cc:11-47 | a request passes if and only if its first Authorization header is `Basic`, a space and a text that decodes to a user, a colon and a password, and the realm with the longest name that begins the address has that password for that user; all others are refused |
| Authentication.RefusalText | src/authenticate.cc:49-57 | the exact text of the answer that asks for credentials in the name of a realm |
| Authentication.BasicCredentials | src/authenticate.cc:18-32 | for a user without a colon, what is read back from the header: nothing for an empty password or one with a colon inside, and otherwise the password without a colon at its end |
| Authentication.CredentialsSurvive | src/authenticate.cc:18-32 | a user and a password are read back as they were if and only if the password is not empty and neither has a colon |
| Authentication.LoginPasses | src/authenticate.cc:11-47 | a request with a Basic header passes if and only if the realm with the longest name that begins the address stores the password read back |
| Authentication.RightPasswordPasses | src/authenticate.cc:11-47 | the stored password passes if and only if it is not empty and has no colon |
| Authentication.OtherPasswordPasses | src/authenticate.cc:25-32 | another password passes if and only if it is the stored one followed by a colon |
| MarkdownLines.TabStops | cpp-markdown-100/markdown.cpp:644-647 | a tab adds one space to a full width and ends on a multiple of the width in force, which is 4 in initial white space |
| MarkdownLines.TabIndents | cpp-markdown-100/markdown.cpp:644-647 | a tab at the start of a line indents it by four spaces, whatever the tab width |
| MarkdownLines.ExpandNothing | cpp-markdown-100/markdown.cpp:637-652 | a line without tabs stays as it is |
| MarkdownLines.ExpandKeepsText | cpp-markdown-100/markdown.cpp:637-652 | expanding leaves no tab, loses and adds nothing but white space, and expanding again changes nothing |
| MarkdownLines.SeenIfKept | cpp-markdown-100/markdown.cpp:638-643 | the lines that are seen are all lines if the list is kept, and less otherwise |
| MarkdownLines.LinesOfJoin | cpp-markdown-100/markdown.cpp:630-670 | lines written with any mix of line ends are read as the lines that are seen, expanded; text after the last end is one more line |
| MarkdownLines.LinesKept | cpp-markdown-100/markdown.cpp:630-670 | lines written with any mix of line ends are read back, expanded, if and only if the list is kept; otherwise there are less |
| MarkdownLines.SameLines | cpp-markdown-100/markdown.cpp:630-670 | lines written in any one of the four newline conventions are all read back, expanded |
| MarkdownLines.EndsCanMerge | cpp-markdown-100/markdown.cpp:641-643 | a list is not kept if anywhere an end of one character runs into another such end of an empty line |
| MarkdownLines.Document.FinishBreak | cpp-markdown-100/markdown.cpp:638-643 | the other half of a line end is taken, anything else is put back |
| MarkdownLines.Document.GetLine | cpp-markdown-100/markdown.cpp:630-654 | delivers the next line with its tabs expanded and leaves the stream after its end |
| MarkdownLines.Document.Read | cpp-markdown-100/markdown.cpp:656-672 | appends all lines of the text in order, unless the document has been processed |
| MarkdownLines.TokensAre | cpp-markdown-100/markdown.cpp:663-668 | there is one token for each line, marked as blank or not |
| MarkdownCode.NextCodeLine | cpp-markdown-100/markdown.cpp:190-211 | an indented line is found exactly when only blank lines stand before it, and the text has a line for each of them |
| MarkdownCode.BlockEndExtends | cpp-markdown-100/markdown.cpp:213-228 | a block that has been found is extended to a block that no longer run exceeds |
| MarkdownCode.ParsesLongestBlock | cpp-markdown-100/markdown.cpp:213-228 | the block taken starts and ends with an indented line, has only indented and blank lines, is the longest such run and has one line of text for each; without one nothing is taken |
| MarkdownCode.IndentThenParse | cpp-markdown-100/markdown.cpp:190-228 | lines of code that are indented into a document are read back as they were, without blank lines after them |
| MarkdownCode.ListingText | cpp-markdown-100/markdown.cpp:213-228 | the text of a block with a blank line in it |
| MarkdownCode.IsCodeBlockLine | cpp-markdown-100/markdown.cpp:190-211 | moves the cursor past the indented line that is found, and back to where it was otherwise |
| MarkdownCode.ParseCodeBlock | cpp-markdown-100/markdown.cpp:213-228 | delivers the text of the longest block and leaves the cursor at its end, or leaves it where it was |
| MarkdownEscapes.MatchesPlaceholder | cpp-markdown-100/markdown-tokens.cpp:629-640 | a placeholder is recognized with its reference, whatever follows it |
| MarkdownEscapes.TableIndex | cpp-markdown-100/markdown-tokens.cpp:24-36 | the index written for an escaped character lies in the table and leads back to that character |
| MarkdownEscapes.TableHolds | cpp-markdown-100/markdown-tokens.cpp:24-36 | the sixteen characters that can be escaped, one by one |
| MarkdownEscapes.PairEscaped | cpp-markdown-100/markdown-tokens.cpp:305-318 | a backslash and one of them become a placeholder, whose text is given; any other pair stays |
| MarkdownEscapes.EscapedHasNone | cpp-markdown-100/markdown-tokens.cpp:301-324 | in an escaped text no backslash stands before one of them |
| MarkdownEscapes.ReferencesRestored | cpp-markdown-100/markdown-tokens.cpp:640-649 | what each reference is restored to, and which are refused |
| MarkdownEscapes.EscapePair | cpp-markdown-100/markdown-tokens.cpp:309-313 | a backslash and the character after it are restored together, escaped or not, and the rest is escaped on its own |
| MarkdownEscapes.RestoreEscape | cpp-markdown-100/markdown-tokens.cpp:301-324 | in a text of characters and placeholders of replaced items, escaping and restoring gives each character as it was and each item's own original |
| MarkdownEscapes.PlainRestored | cpp-markdown-100/markdown-tokens.cpp:301-324 | for every text without the byte 1, escaping and restoring is the identity |
| MarkdownEscapes.MarkCanBeLost | cpp-markdown-100/markdown-tokens.cpp:629-649 | a text that is itself a placeholder without a reference is gone when it is restored |
| MarkdownRestoring.CleanIsRestored | cpp-markdown-100/markdown-tokens.cpp:301-324 | a text of which no byte 1 begins a placeholder, once it is escaped, is restored as it was |
| MarkdownRestoring.MatchIff | cpp-markdown-100/markdown-tokens.cpp:629 | a placeholder is matched at the start of a text exactly when the text begins with a mark, an at-sign, a reference, an at-sign, at least one character and the next mark |
| MarkdownRestoring.AfterForeign | cpp-markdown-100/markdown-tokens.cpp:629-640 | what follows a placeholder that the text itself begins is the escaped form of a text with less marks and escapable characters |
| MarkdownRestoring.RestoredIsNotHeavier | cpp-markdown-100/markdown-tokens.cpp:626-657 | restoring leaves no more marks and escapable characters than the text had |
| MarkdownRestoring.UncleanIsNotRestored | cpp-markdown-100/markdown-tokens.cpp:626-657 | a text of which a byte 1 begins a placeholder is not restored as it was |
| MarkdownRestoring.RestoredIffClean | cpp-markdown-100/markdown-tokens.cpp:626-657 | a text is restored as it was if and only if no byte 1 of it begins a placeholder once it is escaped |
| MarkdownRestoring.CleanWithoutBackslash | cpp-markdown-100/markdown-tokens.cpp:626-657 | without backslashes that means that the placeholder pattern matches nowhere in the text |
| MarkdownRestoring.NoHeadIsClean | cpp-markdown-100/markdown-tokens.cpp:626-657 | it is enough that no head of a placeholder, a byte 1 and a reference between at signs, stands in the text |
| MarkdownEscapes.ProcessEscapedCharacters | cpp-markdown-100/markdown-tokens.cpp:301-324 | the loop computes the escaped text |
| MarkdownEscapes.Search | cpp-markdown-100/markdown-tokens.cpp:635 | delivers the first match at or after a position, or says that there is none |
| MarkdownEscapes.RestoreProcessedItems | cpp-markdown-100/markdown-tokens.cpp:626-657 | the loop computes the restored text, and fails exactly where the number of a reference is missing or out of range |

## Left out

- Emphasis.ProcessBoldAndItalicSpans: requires that the dry run meets no clash, because on other lists the code does not end (proved), and that no marker is paired yet, as the tokenizer leaves them.
- Emphasis.WriteAsHtml: writes text tokens as they stand, because the replacement of special characters in them is a character map that does not touch the tags.
- ConfigParser.Parse: requires the given configuration to be empty, because the code appends to it.
- Utils.GetCRLFLine: an empty line gives the empty text; the code then reads before the start of the line.
- HttpRequest.WriteThenParse: numbers in headers are read by a total function with the 64-bit limits of `strtol` and the conversion to 32 bits; a body too long for memory is not modelled.
- ResponseObject.ProxyHandler.ParseRawResponse: gives none where a header has no colon or a line no end, because the code then starts over near the beginning of the text and may run for ever, and where it throws, at a status that is no number or a location without a path; what it has remembered by then is not modelled.
- MarkdownLines.Document.Read: what makes a line blank is a parameter, because it is a regular expression.
- MarkdownEscapes.RestoreProcessedItems: the pattern of placeholders is matched by hand, and a replaced item is the text it writes as its original.
- MarkdownCode.ParseCodeBlock: the token list is a value and the iterator a cursor with a position in it.
- Emphasis.PairMarkers: the linked list is a sequence of references that is reassigned at each insertion; the markers themselves are shared objects.
- Regular expressions: the recognition of markers, links, tags, code spans, headers, rules, lists and quotes.
- The other block parsers of Markdown, the merging of paragraphs and the order in which the document runs its passes.
- The HTML encoding of text, link ids and images.
- The proxy's connection handling, its lock and the repeated request after a redirect.
- Sockets, threads, logging, files, options, counters, MIME types and the other request handlers.
- Unicode: a character stands for a byte, and where its value matters it is taken modulo 256.
