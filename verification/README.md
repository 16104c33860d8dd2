# Solusek, modelled and proved in Dafny

Solusek is a small HTTP/1.1 server and client library in C++. This project models the parts of
it whose correctness is not obvious from one function, and proves what they keep, undo and
promise. `dafny verify dfyconfig.toml` checks everything.

Imperative code stays imperative: loops over a shared text, classes whose fields change, a tree
of objects with parent links. Each such method is proved against a function of its inputs or of
the old state, and the promises are lemmas about that function.

| module | what it models |
|---|---|
| `Text`, `Numbers` | the string searches, `trim`, `strtolower`, `replaceAll`; `atoi`, `sscanf("%x")`, `sprintf` of integers, the 32-bit conversions |
| `ConfigTree`, `ConfigLine`, `ConfigMeaning`, `ConfigRoundTrip`, `ConfigLookup`, `ConfigFile` | the indentation-driven configuration parser as a function, what a line and a whole text mean, layouts of trees, path lookup, and the object tree the original builds |
| `Sockets`, `Headers`, `HeaderScan` | a connection that may deliver its bytes in any pieces; the header loop of both ends |
| `Request`, `RequestRoundTrip`, `Endpoint`, `Cookies` | the client's request printer and URL splitting, the server's request reader, the Cookie loop |
| `Response`, `ResponseText`, `ResponseRoundTrip`, `Reply`, `Chunked`, `ErrorBody` | the server's response writer, the client's reader with both body forms, the error body |
| `Workers` | the acceptor and its workers as a state machine over all interleavings |
| `Sessions`, `StaticFiles` | session identifiers, session values over aliased items, the session list; the mutually recursive static-file resolver |

## How the code is read

- Strings are sequences of characters, one per byte. The platform is 64-bit Linux with the GNU C
  library: `int` and `unsigned` have 32 bits, `size_t` and `long` 64, `atoi` saturates to `long`
  and is cut to `int`, and `sscanf("%x")` cuts to 32 bits. Strings searched through a 32-bit
  position are taken to be shorter than 2^31.
- A read delivers between one and the requested number of bytes, or throws when nothing more
  arrives; a failure or a timeout is the end of the bytes. The length of a write is passed as an
  `int` (`src/handlers/CNetHandler_linux.cpp:216-227`): as many bytes are sent as that `int` says
  when it is positive. A length of 0 makes `send` return 0, which is thrown, and a negative one is
  taken to fail without sending anything.
- In `Workers` every source-level access to a shared variable is one atomic step. The limit is
  fixed, threads can always be created and `accept` always returns a connection.
- Time, the thread identifier, the file system, the value of an uninitialised `chunkSize`
  (`src/client/CClient.cpp:374`) and which two-byte reads come back short are parameters.

## Where the code does less than one would expect

Each of these is stated as an exact condition or shown by a concrete input.

- A configuration node is found under its path exactly when its siblings' names differ, hold no
  '/', and are not empty below the top level (`ConfigLookup.LookupIsExact`).
- An empty line in a configuration file ends every block: the setting behind it hangs from the
  last node at the outermost indentation (`ConfigRoundTrip.EmptyLineEndsBlocks`).
- A chunk size line without a number repeats the last size (`Chunked.NoNumberRepeats`).
- A request target without line breaks and NUL arrives exactly when it holds no ':' and no space:
  the request line is otherwise split and lower-cased as a header, or ends the target early
  (`RequestRoundTrip.TargetIsUnderstood`).
- A request below 2^32 bytes arrives exactly when its head is below 2^31 bytes, so that one write
  carries it, and its body holds no NUL, since the pieces are appended as C strings
  (`RequestRoundTrip.Deliver`).
- A nonempty response body arrives exactly when it is below 2^31 bytes and no write in front of it
  throws, that is, when date, content type and every cookie's name and value have lengths that
  are positive as an `int`, and so have the session identifier and the cookie paths unless they
  are empty. Otherwise a write that throws breaks the response off, and the client keeps only the
  status code (`ResponseRoundTrip.BodyArrives`, `ResponseRoundTrip.BrokenResponse`).
- A URL is understood exactly when it names its port or has no ':' in its path
  (`Endpoint.UrlIsUnderstood`).
- A cookie piece without '=' becomes a cookie that is its own value, because the position that
  marks "not found" is stored in 32 bits and compared in 64 (`Cookies.PieceWithoutValue`). A file
  name without '.' has itself as extension for the same reason (`StaticFiles.ExtensionOf`).
- A JSON reader gets an error message back exactly when it holds no backslash and no control
  character; only quotes are escaped (`ErrorBody.MessageIsReadBack`).
- Session identifiers are distinct exactly when no second sees more sessions than the counter has
  values; times of different widths can run into the counter (`Sessions.IdsAreDistinct`,
  `Sessions.WidthMatters`).
- `run()` may return while a launched worker has not yet listed its node, and a node can be
  served afterwards exactly when such a worker exists (`Workers.ReturnBeforeRegistration`,
  `Workers.NodesAfterReturn`).

## Model

| member | source | states |
|---|---|---|
| `Text.SplitCharacterised` | src/util/string_util.cpp:65-73 | the pieces between the replaced occurrences are the one list of pieces that joins back to the text and in which every match taken is the leftmost one left |
| `Text.ReplaceAll` | src/util/string_util.cpp:57-77 | with a nonempty `from`, the loop ends and returns those pieces joined with `to` |
| `Text.TrimInPlace` | src/util/string_util.cpp:26-29 | the two erasures compute `Trim` |
| `Text.TrimAround` | src/util/string_util.cpp:12-23 | trimming a trimmed text with any white space around it gives exactly that text |
| `Text.TrimIsTrimmed` | src/util/string_util.cpp:12-29 | the result starts and ends without white space |
| `Text.SpaceIs` | src/util/string_util.cpp:13-15 | white space is blank, tab, line feed, vertical tab, form feed and carriage return |
| `Text.StrToLower` | src/util/string_util.cpp:48-55 | overwriting by index changes exactly the letters A to Z, and nothing else |
| `Text.LowerCharIs` | src/util/string_util.cpp:52-53 | the 26 capitals become the 26 small letters, and every other character stays |
| `Numbers.ValueOfDec` | src/client/CClient.cpp:262-263 | the printed decimal digits of a number have its value |
| `Numbers.DecIsInjective` | src/server/CSession.cpp:11-13 | different numbers print differently |
| `Numbers.AtoiOfInt` | src/client/CClient.cpp:316 | `atoi` gets back every 32-bit integer that was printed, negative ones too, in front of any text that does not go on with a digit |
| `Numbers.AtoiOfDec` | src/server/CNode.cpp:307 | `atoi` of a printed length is that length modulo 2^32 once converted to unsigned |
| `Numbers.IntFits` | src/server/CNode.cpp:165-166 | an `int` or an unsigned `int` prints as at most 11 characters, so its buffer holds it |
| `Numbers.SpellsIsRead` | src/client/CClient.cpp:400 | a text of digits is read as the number it spells position by position, decimal or hexadecimal, in either case of each letter and with any zeros in front, and no other text is |
| `Numbers.DecSpells` | src/client/CClient.cpp:262 | the printed digits of a number spell it |
| `Numbers.HexSpells` | src/client/CClient.cpp:400 | every number has a hexadecimal spelling |
| `Numbers.StrToLReads` | src/server/CNode.cpp:307 | behind white space and a sign, and in front of anything else, a decimal number is read with its sign, as the nearest long when it is out of range |
| `Numbers.StrToLNothing` | src/server/CNode.cpp:307 | without a digit behind white space and sign it reads 0 |
| `Numbers.ScanHexReads` | src/client/CClient.cpp:400 | behind white space, a sign and possibly 0x, and in front of anything else, a hexadecimal number is read modulo 2^32, as the greatest value when it is out of range |
| `ConfigLine.EntryIsRead` | src/server/CConfig.cpp:72-105 | a line gives a node if and only if it holds a ':', and then exactly the one name and value that its text spells out between spaces |
| `ConfigMeaning.ParseLists` | src/server/CConfig.cpp:69-116 | whatever the indentation and wherever the parser stands, what it appends to the tree is exactly the lines it takes that hold a ':', in order, each at the depth its enclosing lines give it |
| `ConfigMeaning.ParseLeaves` | src/server/CConfig.cpp:80-87 | what is left is the end of the lines; it is empty or starts with a shallower line, and a call whose first line is not shallower, such as one made for a deeper line, takes at least that line |
| `ConfigMeaning.ParseTextIsTheMeaning` | src/server/CConfig.cpp:64-118 | for every text, however badly indented, the tree built is the one tree with a node for each complete line that holds a ':', in file order, with the name and value that line spells, as deep as there are lines it is indented under that are still open |
| `ConfigMeaning.InColonLines` | src/server/CConfig.cpp:90-92 | the lines that make a node are all the lines with a ':' |
| `ConfigMeaning.PreorderDetermines` | src/server/CConfig.cpp:107-112 | the listing of nodes with their depths leaves no choice for the tree |
| `ConfigRoundTrip.RoundTrip` | src/server/CConfig.cpp:64-118 | every tree is rebuilt from every layout of it: any consistent indentation with spaces and tabs, any spaces around names and values, and any lines without a ':' at the indentation of a node, in front of it and behind its children |
| `ConfigRoundTrip.EmptyLineEndsBlocks` | src/server/CConfig.cpp:80-87 | behind an empty line a setting hangs from the last outermost node instead of the one it is indented under |
| `ConfigRoundTrip.ExactlyTheGoodTrees` | src/server/CConfig.cpp:64-118 | the trees with well-formed names and values are exactly those some text that names its entries parses to |
| `ConfigFile.ConfigParse` | src/server/CConfig.cpp:64-118 | the recursive loop over the shared text ends on every text, builds below the parent exactly the children `Parse` says, keeps the tree valid (parent links, no sharing), and leaves exactly the rest, cut at a line start |
| `ConfigFile.PushEntry` | src/server/CConfig.cpp:92-114 | a line at the current indentation advances the parser's goal by that line: one new last node if it holds a ':', and nothing otherwise |
| `ConfigFile.Descend` | src/server/CConfig.cpp:81-85 | the recursive call on the last node advances the parser's goal by a nonempty piece of the text |
| `ConfigFile.ParseBelow` | src/server/CConfig.cpp:83 | after the recursive call the last child has exactly the new children, everything else is as before, and the tree is valid |
| `ConfigFile.ParseLast` | src/server/CConfig.cpp:83 | the recursive call changes only the last child's subtree and keeps it apart from all others |
| `ConfigFile.SplitIndent` | src/server/CConfig.cpp:72-78 | the character loop finds the indentation and the text behind it |
| `ConfigFile.StripSpaces` | src/server/CConfig.cpp:97-105 | the two trimming loops strip the spaces at both ends, down to the empty text |
| `ConfigFile.Node.PushBack` | src/server/CConfig.cpp:107-111 | a new leaf that points back to its parent becomes the last child |
| `ConfigFile.Config.constructor` | src/server/CConfig.cpp:120-143 | without a file the object is not OK and has no tree; with one it is OK, the root has no parent, and its children are the tree of the contents up to the first NUL |
| `ConfigFile.ConfigGet` | src/server/CConfig.cpp:150-176 | the node returned is the one at the first matching position on every level, or none |
| `ConfigFile.Config.Get` | src/server/CConfig.cpp:178-191 | the located value less one pair of surrounding quotes, or the empty text |
| `ConfigLookup.LookupIsExact` | src/server/CConfig.cpp:150-176 | every node is reached under its '/'-joined path if and only if sibling names are distinct, free of '/', and not empty below the top |
| `ConfigLookup.LocateIsExact` | src/server/CConfig.cpp:150-176 | in every tree a path finds a node if and only if it is the joined names down to it, each the first of that name among its siblings, possibly with a '/' at the end |
| `ConfigLookup.UnquoteIsExact` | src/server/CConfig.cpp:184-187 | a value in quotes gives exactly what is between them, a single quote gives nothing, and any other value gives itself |
| `ConfigLookup.ValueIsExact` | src/server/CConfig.cpp:178-191 | a path that leads to a node gives what the node's value gives, and any other path the empty text |
| `ConfigLookup.EverySettingIsRetrieved` | src/server/CConfig.cpp:178-191 | from any layout of a tree a path gives the value of the node it leads to, without its quotes if it has them, and otherwise nothing; in an addressable tree each node's own path leads to it |
| `Sockets.Socket.ReadBuffer` | src/handlers/CNetHandler_linux.cpp:178-188 | between one and the requested bytes, in order, or the exception when nothing more arrives |
| `Sockets.Socket.WriteBuffer` | src/handlers/CNetHandler_linux.cpp:216-227 | as many bytes are sent as the `int` of the length says, and it throws exactly when that is not positive |
| `Sockets.CarriedWhole` | src/handlers/CNetHandler_linux.cpp:216-227 | a write carries the whole data if and only if it is below 2^31 bytes, and then throws only for none |
| `Sockets.CarriedLength` | src/handlers/CNetHandler_linux.cpp:216-222 | for every length, a write carries the length modulo 2^32 when that is below 2^31, and nothing otherwise |
| `Headers.ReadLines` | src/client/CClient.cpp:299-343 | the byte loop both ends run reads exactly the header section off the connection, or all there is |
| `HeaderScan.ScanIsExact` | src/server/CNode.cpp:246-275 | for any bytes and both ends, the section ends with the first two newlines in a row once CR, and at the server NUL, are left out; its lines are all that a newline ends, and the rest is untouched |
| `Headers.ScanPrinted` | src/server/CNode.cpp:246-275 | a printed header section is read back as its lines and the blank one, and the body stays unread |
| `Headers.ScanTakes` | src/server/CNode.cpp:246-275 | a header section that only what follows a cut completes has taken some of that |
| `Headers.ScanMore` | src/client/CClient.cpp:299-343 | bytes arriving later never change what was read before |
| `Request.PrintHead` | src/client/CClient.cpp:242-266 | request line, host, headers in order, length only with a body, blank line |
| `Request.SendRequest` | src/client/CClient.cpp:242-286 | the head is one write and the block-wise loop sends the body whole and once; nothing follows a head whose write throws |
| `Request.BytesSent` | src/client/CClient.cpp:274-286 | the head's length modulo 2^32 decides: that much of the head and the whole body, or nothing at all |
| `Request.SplitHeader` | src/server/CNode.cpp:254-264 | name in small letters and trimmed value around the first ':', or the whole line as name |
| `Request.ServerNode.ReadHeader` | src/server/CNode.cpp:241-297 | fields, unread bytes and outcome are those of `ParseRequest`, whichever way the bytes arrive; a request line without a space is the exception |
| `Request.ServerNode.TakeRequestLine` | src/server/CNode.cpp:277-296 | method, path, query and version from the first header, also when the second space is missing |
| `Request.ServerNode.TakeQuery` | src/server/CNode.cpp:290-295 | path and query around the first '?' |
| `Request.ServerNode.FindHeader` | src/server/CNode.cpp:329-339 | the first header of that name under any case |
| `Request.ServerNode.ReadBody` | src/server/CNode.cpp:299-320 | pieces of 1 to 1024 bytes are read exactly as long as the 32-bit count is short of the announced length, and the body is their C strings; it is closed only when the bytes ran out with the count still short |
| `Request.WholeBody` | src/server/CNode.cpp:307-318 | a body that ends where the announced length does is read whole however it is split, and kept if and only if it holds no NUL |
| `Request.CStringsKeepAll` | src/server/CNode.cpp:315-317 | however the bytes are cut into pieces, appending them as C strings loses nothing if and only if none is NUL |
| `Request.CStringsCut` | src/server/CNode.cpp:315-317 | a piece is kept up to its first NUL, and the pieces behind it are still appended |
| `RequestRoundTrip.HeadRoundTrip` | src/server/CNode.cpp:241-297 | the server gets the client's method, path, query and version, finds every header under any case of its name, and leaves the body unread |
| `RequestRoundTrip.HeaderReads` | src/server/CNode.cpp:254-264 | any white space, or none, on both sides of a value is dropped, the name is in small letters, and a line without a ':' is a name as it stands |
| `RequestRoundTrip.FirstLineReads` | src/server/CNode.cpp:277-296 | a first line without a space is refused, and without a second one the target stands for the version too |
| `RequestRoundTrip.LinesDecide` | src/server/CNode.cpp:277-296 | any clean lines are taken as headers in order, and the request is refused exactly when the first has no space in its name |
| `RequestRoundTrip.CutIsClosed` | src/server/CNode.cpp:246-275 | a header section that is cut anywhere is no request |
| `RequestRoundTrip.TargetIsUnderstood` | src/server/CNode.cpp:255-295 | whatever clean target is sent, path and query are those of it if and only if it holds no ':' and no space |
| `RequestRoundTrip.TargetSeen` | src/server/CNode.cpp:255-295 | otherwise the server sees the target cut at the first ':', in small letters, and then at the first space |
| `RequestRoundTrip.LengthIsAnnounced` | src/client/CClient.cpp:258-265 | the length the server reads is the body's; without a body there is none |
| `RequestRoundTrip.FieldIsFound` | src/server/CNode.cpp:329-339 | every header the client writes is found with its value under any case of its name |
| `RequestRoundTrip.AbsentIsNotFound` | src/server/CNode.cpp:329-339 | a name that no header has is not found, so neither the request line nor the blank line poses as a header |
| `RequestRoundTrip.TargetParts` | src/server/CNode.cpp:290-295 | a target joined with '?' is split into the path and the query it was joined from |
| `RequestRoundTrip.Serve` | src/server/CNode.cpp:37-55 | header and body are read in turn, no path is left unless both succeed, no more of the body is kept than arrived, and with the right length all of it if and only if it holds no NUL |
| `RequestRoundTrip.CutHead` | src/client/CClient.cpp:274 | behind a head too long for one write the server never has the whole body left to read |
| `RequestRoundTrip.Deliver` | src/client/CClient.cpp:242-286 | end to end over a connection with any short reads: body and all arrive if and only if the head fits one write and the body holds no NUL; with such a head, method, path, query and headers always do |
| `Chunked.ReadSizeLine` | src/client/CClient.cpp:384-395 | the inner loop gathers one size line up to CR LF |
| `Chunked.ReadCounted` | src/client/CClient.cpp:410-415 | appends exactly the announced number of bytes, or all that is left |
| `Chunked.ReadChunked` | src/client/CClient.cpp:371-427 | the loop computes `Decode` of the connection's bytes, for some pattern of short reads |
| `Chunked.SizeLineIsExact` | src/client/CClient.cpp:384-395 | for any bytes, a size line ends at the first CR LF, and what is gathered is all in front of it but its CRs |
| `Chunked.DecodeInvertsEncode` | src/client/CClient.cpp:371-427 | decoding inverts the coding of RFC 9112 section 7.1 for every list of chunks whose sizes are spelled in any hexadecimal digits, with extensions and trailer, also when the two-byte read returns one byte |
| `Chunked.NoNumberRepeats` | src/client/CClient.cpp:400-415 | a size line that starts with no digit leaves the last size standing |
| `Chunked.CutDecodesToPrefix` | src/client/CClient.cpp:423-427 | for any bytes, valid or not, cutting the connection anywhere gives a prefix of the body |
| `Chunked.CutChunkedBody` | src/client/CClient.cpp:371-427 | a valid chunked body cut at any byte yields a prefix of its data |
| `Chunked.PartialChunk` | src/client/CClient.cpp:410-427 | when the connection ends inside a chunk, the data of the chunks before it and all that arrived of its own are kept |
| `Reply.ReadReply` | src/client/CClient.cpp:295-453 | the reader returns exactly `Reads` of the bytes: last status code, default or given type, location, and the body in either form |
| `Reply.LineReads` | src/client/CClient.cpp:320-328 | any white space, or none, around name and value is dropped, and the name is in small letters |
| `Reply.LineWithoutColon` | src/client/CClient.cpp:320-328 | a line without a ':' is its own name and value |
| `Reply.CodeReads` | src/client/CClient.cpp:312-316 | the code is the number in the second word, or in the only one |
| `Reply.CountedReply` | src/client/CClient.cpp:345-370 | for any clean header lines that say a length: exactly that many bytes are the body, whatever follows, and type and location are the ones said last; a shorter body is kept as far as it came, and then the location is not looked at |
| `Reply.BareReply` | src/client/CClient.cpp:345-371 | with neither a length nor a transfer coding there is no body |
| `Reply.ChunkedReply` | src/client/CClient.cpp:295-440 | whatever else clean header lines say, with a Transfer-Encoding and no Content-Length the client gets the status code, the type and location said, and all the data of every list of chunks, for every pattern of short reads |
| `Reply.CutChunkedReply` | src/client/CClient.cpp:295-453 | the same reply cut at any byte, and read with short reads of its own, gives a prefix of the data, and the code once the header section is through |
| `Reply.CutReply` | src/client/CClient.cpp:443-453 | for any bytes and any cut: the body is a prefix; behind the header section code and type are kept; inside it the code is kept unless a status line is still to come |
| `Response.WriteStrings` | src/server/CNode.cpp:157-160 | the writes of one line, up to the first one that throws |
| `Response.WriteResponse` | src/server/CNode.cpp:162-239 | what is sent is `ResponseBytes`, and no write throws if and only if the header strings and the body all have positive lengths as an `int` |
| `Response.WriteCookies` | src/server/CNode.cpp:216-229 | one line per cookie, in order, the path only when there is one |
| `Response.WrittenExactly` | src/server/CNode.cpp:157-239 | the fold over all the strings stays open exactly under that condition |
| `ResponseText.UnbrokenBytes` | src/server/CNode.cpp:181-236 | when no write in front of the body throws, the bytes are the status line, the header lines in order, the blank line and as much of the body as one write carries |
| `ResponseText.WireFormat` | src/server/CNode.cpp:162-239 | those bytes spelled out: status line with the reason phrase of the code, the given date or else the clock's, type, length, the session's and every cookie's line with its attributes, and the closing lines |
| `ResponseText.BrokenBytes` | src/server/CNode.cpp:157-229 | otherwise they are the status line, some whole header lines in order, and the start of one more |
| `ResponseRoundTrip.RowReads` | src/client/CClient.cpp:320-328 | a header line, even one that holds a cookie, gives back its name and trimmed value |
| `ResponseRoundTrip.HeaderReads` | src/client/CClient.cpp:299-343 | from all the lines the client gets the code, type, length and date, whatever the cookies and the session say |
| `ResponseRoundTrip.RoundTrip` | src/server/CNode.cpp:162-239 | the client recovers the code, the content type and every byte of the body that its write carried, NULs included |
| `ResponseRoundTrip.BrokenResponse` | src/server/CNode.cpp:157-160 | a response with a write that throws in front of the body, such as that of an empty content type or cookie value, reaches the client as its status code alone |
| `ResponseRoundTrip.BodyArrives` | src/server/CNode.cpp:162-239 | a nonempty body arrives if and only if no write in front of it throws and it is below 2^31 bytes; the code always arrives |
| `ResponseRoundTrip.Deliver` | src/client/CClient.cpp:295-453 | the same end to end, from writer to reader over a connection with any short reads |
| `ErrorBody.MakeErrorBody` | src/include/solusek/MErrorResponse.h:21-25 | the concatenation as one text |
| `ErrorBody.CodeIsReadBack` | src/include/solusek/MErrorResponse.h:20-25 | the body spelled out; a JSON reader gets the code's digits, and they read as the code |
| `ErrorBody.EscapeIsUndone` | src/include/solusek/MErrorResponse.h:24 | replacing the escaped quotes back gives every original message, even one that already holds backslashes |
| `ErrorBody.EscapeIsCharwise` | src/include/solusek/MErrorResponse.h:24 | the search-and-replace acts on each character alone |
| `ErrorBody.MessageIsReadBack` | src/include/solusek/MErrorResponse.h:18-26 | a JSON reader gets the message back if and only if it holds no backslash and no control character |
| `Endpoint.UrlIsUnderstood` | src/client/CClient.cpp:113-171 | scheme, host, port and path of a URL, credentials dropped, are recovered if and only if it names its port or its path has no ':' |
| `Endpoint.OnlyEndpoints` | src/client/CClient.cpp:116-122 | a text is refused as an endpoint if and only if it holds no "://" |
| `Endpoint.ColonInPath` | src/client/CClient.cpp:150-162 | otherwise the host swallows the path up to the ':' |
| `Cookies.ParseCookies` | src/server/CNode.cpp:73-100 | the loop ends and yields the decoded list and the last session cookie's value |
| `Cookies.GetCookie` | src/include/solusek/MRequest.h:24-32 | the first cookie of that name, or none |
| `Cookies.SidIsLast` | src/server/CNode.cpp:96-97 | the session identifier is the value of the last cookie named SolusekSID, and empty without one |
| `Cookies.SidComesBack` | src/server/CNode.cpp:205-214 | a session cookie sent back behind any other cookies is recognised again |
| `Cookies.CookieRoundTrip` | src/server/CNode.cpp:73-100 | a list of cookies joined as in RFC 6265 section 4.2.1 is read back in order if and only if names have no '=' or ';', values no ';', and no white space surrounds a pair |
| `Cookies.DecodedAreGood` | src/server/CNode.cpp:73-100 | from any header value the loop makes only such cookies |
| `Cookies.PieceWithoutValue` | src/server/CNode.cpp:91-98 | a piece without '=' is taken as name and as value |
| `Cookies.PiecesAreRead` | src/server/CNode.cpp:76-98 | every piece between semicolons is a cookie, an empty one too, except an empty last one |
| `Cookies.PieceIsSplit` | src/server/CNode.cpp:89-95 | a piece is split at its first '=', and only white space around the whole piece is dropped |
| `Workers.StepKeeps` | src/server/CServer.cpp:126-243 | every step of the acceptor, of any worker and of `stop` keeps the invariant |
| `Workers.EveryRunIsSafe` | src/server/CServer.cpp:126-243 | in every interleaving the thread count is exact, never wraps and never exceeds the limit by more than one; no deleted package is touched; no node runs under identifier 0; the list holds exactly the nodes being served, each once |
| `Workers.EveryAccessIsGood` | src/server/CServer.cpp:184-231 | in every run, whoever is next: each package is alive while its worker or the acceptor still uses it, a node that starts has its identifier, and no counter is about to wrap |
| `Workers.FaultIsBadAccess` | src/server/CServer.cpp:169-231 | the model records a fault exactly when a step uses a deleted package, starts a node without identifier or makes the counter wrap |
| `Workers.OnlyTwoStepsCount` | src/server/CServer.cpp:169-230 | only the acceptor's increment and a worker's decrement change the count, which is an `unsigned int` |
| `Workers.LimitIsReached` | src/server/CServer.cpp:156-192 | for every limit some run from the start has limit + 1 nodes served at once, and there the acceptor waits |
| `Workers.AcceptorWaits` | src/server/CServer.cpp:156-202 | the acceptor stands still exactly when the count exceeds the limit at its look at it, when nodes are left at the end, and when `run` has returned |
| `Workers.WorkerWaits` | src/server/CServer.cpp:212-231 | a worker stands still exactly while its identifier is not assigned and when it has ended; any other step takes it one stage further |
| `Workers.WorkerCanEnd` | src/server/CServer.cpp:212-231 | a worker with its identifier can always go on to its end |
| `Workers.AfterStop` | src/server/CServer.cpp:175-192 | once the stop signal is set at most one more worker is launched, and only by an acceptor that was past its second look |
| `Workers.RunPasses` | src/server/CServer.cpp:212-243 | in any run from any state a worker takes each of its steps as often as it has moved past it |
| `Workers.OncePerWorker` | src/server/CServer.cpp:223-243 | a node enters the list at most once, leaves at most once and after that, and only then is the count given back |
| `Workers.ReturnSees` | src/server/CServer.cpp:197-202 | `run` returns in a state where each worker is not yet listed or already removed |
| `Workers.NodesAfterReturn` | src/server/CServer.cpp:199-202 | after the return some continuation serves a node if and only if a worker was not yet listed |
| `Workers.EarlyCanRegister` | src/server/CServer.cpp:212-231 | the continuation in which it does |
| `Workers.ReturnBeforeRegistration` | src/server/CServer.cpp:190-202 | a concrete run from the start in which `run` returns before the only worker has listed its node |
| `Workers.SlotIsAbandoned` | src/server/CServer.cpp:167-180 | a concrete run in which a stop during `accept` leaves a slot counted that no worker was launched for |
| `Workers.Removed` | src/server/CServer.cpp:233-243 | erasing the first occurrence from a list without duplicates removes that node and no other |
| `Workers.FirstIsErased` | src/server/CServer.cpp:233-243 | in any list the first occurrence is erased, and no other |
| `Sessions.IdAt` | src/server/CSession.cpp:7-15 | the k-th identifier is the k-th time followed by the counter, which wraps |
| `Sessions.SameId` | src/server/CSession.cpp:12 | among ten-digit times an identifier determines both time and counter, though nothing separates them |
| `Sessions.IdReads` | src/server/CSession.cpp:12 | the first ten characters spell the time, and the others the counter |
| `Sessions.WidthMatters` | src/server/CSession.cpp:12 | two different times and counters of other widths with one identifier |
| `Sessions.IdsAreDistinct` | src/server/CSession.cpp:5-15 | over a clock that does not run backwards the identifiers are pairwise distinct if and only if no second sees more sessions than the counter has values |
| `Sessions.Session.Get` | src/server/CSession.cpp:33-41 | the object that holds the name's value, or none exactly when the name was never set |
| `Sessions.Session.GetStringValue` | src/server/CSession.cpp:25-31 | the map's value, or the empty text |
| `Sessions.Session.SetStringValue` | src/server/CSession.cpp:43-51 | updates the map at one name, though the list only grows and repeats objects |
| `Sessions.SetAll` | src/server/CSession.cpp:43-51 | any sequence of settings leaves the map it says |
| `Sessions.LastSettingWins` | src/server/CSession.cpp:25-51 | that map holds the value last set |
| `Sessions.SessionList.StartSession` | src/server/CServer.cpp:431-436 | a new session with the next identifier joins the list |
| `Sessions.SessionList.GetSession` | src/server/CServer.cpp:438-446 | the first session with the identifier, or none |
| `Sessions.SessionList.DestroySession` | src/server/CServer.cpp:448-458 | the first session with the identifier leaves the list, the others keep their order |
| `Sessions.DistinctMeansFound` | src/server/CServer.cpp:438-458 | among distinct identifiers each session is found under its own and no longer once destroyed, and the rest stay distinct |
| `Sessions.StoredAreDistinct` | src/server/CServer.cpp:431-458 | the stored sessions always have distinct identifiers under the clock's conditions |
| `Sessions.RunCalls` | src/server/CServer.cpp:431-458 | over any sequence of starts and ends, a session that is not ended stays listed, and a start that is no longer listed never comes back |
| `Sessions.StaysFound` | src/server/CServer.cpp:438-446 | while it is not ended, whatever else starts and ends, a session is what its identifier finds |
| `Sessions.StaysGone` | src/server/CServer.cpp:438-458 | once ended, it is not found again, whatever sessions start and end later |
| `Sessions.SessionLife` | src/server/CServer.cpp:431-458 | start, find, destroy and not find, and the list is as before |
| `StaticFiles.StaticServer.AddStaticDirectory` | src/server/CServer.cpp:262-269 | appends the directory, its host in small letters |
| `StaticFiles.StaticServer.FindRoot` | src/server/CServer.cpp:294-306 | the first directory that serves the host, by suffix or for every host |
| `StaticFiles.StaticServer.GetMimeType` | src/server/CServer.cpp:460-468 | the first entry of that extension, or none when no entry has it |
| `StaticFiles.StaticServer.GetStaticEndpoint` | src/server/CServer.cpp:281-392 | the mutually recursive resolver ends and returns what `Resolve` says |
| `StaticFiles.StaticServer.GetStaticIndex` | src/server/CServer.cpp:394-408 | the index loop returns what `Index` says |
| `StaticFiles.DirectIsExact` | src/server/CServer.cpp:283-391 | a file is found if and only if the path has no "..", and the first directory in the order of registration that serves the host has a nonempty path below which the file exists; it is that file, with its date and the method asked for |
| `StaticFiles.ServesBySuffix` | src/server/CServer.cpp:296-301 | a directory serves every host when its own is empty, and otherwise those that end with it |
| `StaticFiles.QueryIsCut` | src/server/CServer.cpp:313-319 | what follows a '?' does not count for the file |
| `StaticFiles.SlashIsLast` | src/server/CServer.cpp:286 | the index names are tried exactly for paths whose last character is a '/' |
| `StaticFiles.IndexIsExact` | src/server/CServer.cpp:286-408 | for a path ending in '/' a file is found if and only if some index name not ending in '/' names a file below the first serving directory, with no ".." in path and name together; it is the file of the first such name in registration order |
| `StaticFiles.TypeIsExact` | src/server/CServer.cpp:336-388 | its type is that of the first entry for its extension, and the default when there is none |
| `StaticFiles.ExtensionOf` | src/server/CServer.cpp:325-336 | the extension is what follows the last '.' of the file name, in small letters, and the whole name when there is none |
| `StaticFiles.FirstIndexWins` | src/server/CServer.cpp:394-408 | the first index name that resolves wins, in registration order, and none ending in '/' ever does |
| `StaticFiles.DirectStaysInside` | src/server/CServer.cpp:284-323 | walking the returned path component by component never leaves the directory |
| `StaticFiles.ResolveStaysInside` | src/server/CServer.cpp:281-408 | the same for every request, through the index names too |

## Left out

- RequestRoundTrip.Deliver: bodies from 2^32 bytes on, whose announced length is cut to 32 bits, so that the outcome depends on how the reads are split; `Request.ServerNode.ReadBody` covers them.
- Sockets.Socket.WriteBuffer: what the operating system does with a negative length is fixed as failing.
- Sessions.StaysGone: as for the identifiers, under the clock's conditions.
- ErrorBody.MessageIsReadBack: the JSON reader has no `\u` escapes from D800 on; the server writes none.
- StaticFiles.StaticServer.GetStaticIndex: requires nonempty index names, since the code indexes the last character of an empty one and would call itself for ever.
- Text.ReplaceAll: requires a nonempty `from`, since the code never returns for an empty one.
- ConfigFile.StripSpaces: an empty text is "not a space" at its end, where the code reads in front of it.
- Sessions.SameId: times of ten digits, the years 2001 to 2286; `Sessions.WidthMatters` shows why.
- Splitting of methods: `PushEntry`, `Descend`, `ParseBelow`, `ParseLast`, `ParseFile`, `SplitHeader`, `TakeRequestLine`, `TakeQuery`, `WriteStrings`, `WriteCookies`, `SplitCookie`, `FindRoot`, `ReadSizeLine` and `ReadCounted` are parts of one function each in the original.
- The configuration file's reading, beyond its bytes; a tree that was never built is null here and an unset pointer there. The YAML branch only wraps a library.
- The `ignoreResult` switch of the client, TLS, certificates, timeouts, name lookup and the socket calls themselves.
- A response's `Location`: the server never writes one; the client's reading of it is modelled.
- Liveness: that waiting loops end and that `stop` wakes the acceptor.
- Data races inside vectors and counters: each access is one step here.
- Database drivers, SQL text, the connection pool and its locks.
- Destructors, freeing of memory (a destroyed session is never freed by the original), logging, clock formatting, the table of MIME types, flag collection, the trust store, address lists and the sample server.
- Registered endpoints and callbacks: an equality search and foreign code.
- Real files: the file system is a map from paths to contents that does not change meanwhile; symbolic links are not part of it.
