# Verified models of waspp and its vendored hiredis

A Dafny model of the parts of the repository that keep state across calls or threads, with proofs. Bytes are the
numbers below 256. Each module models one source file, or one part of one.

| modules | what they model |
|---|---|
| `ByteStrings`, `ByteSearch` | bytes, C strings, `std::string::find`, `extract_between`, comparison without regard to case |
| `Resp`, `RespResume`, `RedisReader` | the resumable reader of the Redis protocol (`read.c`) and its reply objects, against a recursive parser |
| `RespWire` | the replies that a server writes, with their own bytes, against that parser |
| `SdsBuffer`, `SdsNumbers`, `RedisCommand`, `CatFormat`, `RedisPipeline` | dynamic strings, formatting and the command writers (`sds.c`, `hiredis.c`), against the reader |
| `SdsSplit`, `SdsArgs`, `SdsWords` | splitting and joining, quoting and splitting of argument lines (`sds.c`), and the language of those lines |
| `HashChains`, `Dict`, `DictIterator`, `DictRuns` | the chained hash table and its iterator (`dict.c`), against a finite map |
| `AsyncModel`, `AsyncCalls`, `RedisAsync` | the command and callback machine (`async.c`): a machine over values, what a program's calls amount to in it, and the linked structure that refines it |
| `HttpSyntax`, `StrToLSyntax`, `HttpRequestParser` | the incremental HTTP request parser (`request_parser.hpp`), against a byte-wise step |
| `HttpGrammar`, `HttpLanguage`, `HttpVerdicts`, `HttpPrinter` | the grammar of what that parser accepts, both directions, its three verdicts, and a printer of requests |
| `PercentCoding`, `Base64` | the codecs of `utility.cpp` (RFC 3986 section 2.1, RFC 4648 section 4) |
| `FormPairs`, `Multipart`, `MultipartBody`, `FormContent` | both body formats of `parse_content` (`request_parser.cpp`, RFC 2046 section 5.1.1) |
| `FormLanguage`, `MultipartLanguage` | what every body of either format means, however it was written |
| `ConnectionPool`, `PoolOperations` | both connection pools under the spinlock, as interleaved steps of any number of threads, and what a get and a release do among them |

Where the source changes state in place, so does the model: readers, buffers, tables, contexts and requests are
classes with the fields of the source, and every method is held to a function of the old state. Two shapes recur.
A function says what one byte, one reply or one operation does, or what a whole input means; the loops of the source
are proved to compute it, from any state they can be in. Lemmas about that function then state what the source
promises: round trips with an independent printer or coder, independence of how the input is cut, delivery, conservation.

User callbacks of `async.c` are functions from a command and its reply to a finite list of calls on the context, so the
results hold for every program. Threads of the pools are schedules: any list of thread numbers and outcomes.

Six places where the code does something a reader might not expect, and the model follows the code:

- A multipart boundary that consists of dashes only is legal in RFC 2046, but the parser then takes a later place of the
  final separator for a separator, and the last value gets a line end that was not sent. `FormContent.MultipartAsSent`
  says exactly when parts arrive as sent; `MultipartBody.MultipartRoundTrip` covers every boundary.
- `sdsjoinsds` of the list with one empty token is the empty string, which `sdssplitlen` splits into no token.
  `SdsSplit.SplitUndoesJoin` says exactly for which lists splitting undoes joining.
- A percent-coded form that ends in a name without an equals sign loses that name, although the same name before an
  ampersand is kept with an empty value (`FormPairs.LoneName`). `FormPairs.MixedForm` says exactly which forms are read
  as they are meant.
- A POST is refused when its body starts with a byte that is no token byte, a brace or a quote for example.
  `HttpPrinter.FirstBodyByte` says so for every request that is in order otherwise, and `HttpLanguage.Language` says
  exactly which inputs are accepted; `HttpVerdicts.Verdicts` says which are refused, and at which byte.
- A text between single quotes that ends in a backslash cannot be written in an argument line
  (`SdsWords.SingleQuoted`).
- An upload whose filename is empty arrives as a parameter (`Multipart.PartRoundTrip`).

`dafny verify dfyconfig.toml` checks everything.

## Model

| member | source | states |
|---|---|---|
| `Resp.ParseReply` | win/hiredis/read.c:215-414 | The reference: one reply of the protocol, read by plain recursion. A reply takes at least three bytes (its type byte and two more), which is the termination measure of everything above it |
| `Resp.ParseElements` | win/hiredis/read.c:190-213 | `n` replies one after the other: exactly `n` values, and never more input than there was |
| `Resp.ReadHead` | win/hiredis/read.c:215-365 | One item without its children takes at least two bytes; an array is opened only with elements to come and only below the depth limit |
| `Resp.NewlineFrom` | win/hiredis/read.c:120-144 | The first CR LF, and none before it |
| `Resp.ReplyExtends` | win/hiredis/read.c:477-525 | A reply or an error found in some bytes is found unchanged in every extension of them |
| `Resp.StreamSplits` | win/hiredis/read.c:445-525 | What a stream delivers after `s + t` is what it delivers after `s` and then after `t`: no cut of the input matters |
| `Resp.BodyNesting` | win/hiredis/read.c:302-312 | No reply ever holds more than eight arrays inside each other |
| `Resp.NestedHeaders` | win/hiredis/read.c:302-312 | For all `k` array headers inside each other, before any input: they are read if and only if the depth stays within eight, and the next header is the depth error |
| `RespResume.TypeStep` | win/hiredis/read.c:367-396 | Consuming a type byte alone changes nothing of what any further input will give |
| `RespResume.OpenStep` | win/hiredis/read.c:339-359 | Opening an array and starting on its first child changes nothing of what any further input will give |
| `RespResume.PopStep` | win/hiredis/read.c:197-205 | The last child of an array completes the array |
| `RespResume.NextStep` | win/hiredis/read.c:206-211 | Any other child makes the next child current |
| `RespResume.DeliveredFeed` | win/hiredis/read.c:445-475 | Fed bytes are never lost: what was delivered and what is still pending stay the whole stream |
| `RespResume.DeliveredReply` | win/hiredis/read.c:514-523 | Emitting a reply keeps delivered and pending together equal to the whole stream |
| `RespResume.DeliveredError` | win/hiredis/read.c:46-70 | When the reader fails, the replies delivered so far and the error are those of the recursive parser |
| `RedisReader.SeekNewline` | win/hiredis/read.c:120-144 | Finds the first CR LF within a length, or says that there is none; never reads past the closing NUL |
| `RedisReader.ReadLongLong` | win/hiredis/read.c:148-173 | Reads the number of the reference from a line that ends in a CR |
| `RedisReader.ReadBulk` | win/hiredis/read.c:249-300 | A bulk item is what the reference reads at the cursor, or nothing is consumed |
| `RedisReader.ReplyNode.ToReply` | win/hiredis/hiredis.c:112-199 | A finished object tree read off its fields is the reply it stands for: every element slot is filled |
| `RedisReader.ReplyNode.CreateArray` | win/hiredis/hiredis.c:144-167 | An array object starts with all its slots null; an empty one is finished at once |
| `RedisReader.TaskStack.Attach` | win/hiredis/hiredis.c:112-199 | The object goes into the slot of its parent that the task index names, and into no other |
| `RedisReader.TaskStack.MoveToNextTask` | win/hiredis/read.c:190-213 | The assertions hold; the next open slot becomes current, or the whole reply is finished, as the reference has it |
| `RedisReader.TaskStack.OpenArray` | win/hiredis/read.c:344-353 | Every slot below the current one is an array task whose child index is in range, and so it stays |
| `RedisReader.TaskStack.Pop` | win/hiredis/read.c:200-205 | An array whose slots are all filled becomes the finished item one level down |
| `RedisReader.Reader.SetError` | win/hiredis/read.c:46-70 | Clears buffer, stack and reply and keeps the error |
| `RedisReader.Reader.Feed` | win/hiredis/read.c:445-475 | Appends the bytes behind the unread ones; dropping an idle buffer is not visible; refused once there is an error |
| `RedisReader.Reader.ReadLine` | win/hiredis/read.c:175-188 | Consumes a line and its end if and only if the end is there |
| `RedisReader.Reader.ProcessLineItem` | win/hiredis/read.c:215-247 | Consumes one line item as the reference does, or waits without consuming |
| `RedisReader.Reader.ProcessBulkItem` | win/hiredis/read.c:249-300 | Consumes one bulk item as the reference does, or waits without consuming |
| `RedisReader.Reader.ProcessMultiBulkItem` | win/hiredis/read.c:302-365 | Opens, finishes or refuses one array item as the reference does, or waits |
| `RedisReader.Reader.ProcessItem` | win/hiredis/read.c:367-414 | One step of the reader ends, for all further input, where the state before it was going to end |
| `RedisReader.Reader.Discard` | win/hiredis/read.c:506-513 | Compacting the consumed prefix is not visible |
| `RedisReader.Reader.GetReply` | win/hiredis/read.c:477-525 | Gives the next whole reply, or null and a suspended state worth the same, or the error of the reference |
| `RedisReader.Run` | win/hiredis/read.c:445-525 | Main result: for every list of chunks, feeding them and taking replies gives exactly the replies and the first error of the recursive parser on the whole stream |
| `RespWire.TypeBytes` | win/hiredis/read.c:367-396 | The five type bytes and what each stands for |
| `RespWire.ReplyRead` | win/hiredis/read.c:367-414 | Main result: whatever reply a server writes, with its own type bytes, both forms of nil and line ends, is read back as it was meant, whatever follows it, or is the depth error exactly when an array header has eight others around it |
| `RespWire.CountedRead` | win/hiredis/read.c:249-300 | A bulk string is taken by its count, whatever the two bytes behind it are |
| `RespWire.NegativeBulk` | win/hiredis/read.c:258-270 | A bulk string with any negative count is nil |
| `RespWire.HeaderRead` | win/hiredis/read.c:302-365 | An array header line at any depth: refused, nil for the count -1 only, empty for any other count below one, or that many elements |
| `RespWire.DeepArray` | win/hiredis/read.c:308-312 | Inside eight arrays the type byte of an array is the error, before its count is there |
| `RespWire.PartWaits` | win/hiredis/read.c:477-525 | No part of a reply, short of all of it, is delivered or refused |
| `RespWire.StreamRead` | win/hiredis/read.c:445-525 | Replies that were written one after the other are what a stream delivers first, whatever follows |
| `RespWire.StreamWaits` | win/hiredis/read.c:445-525 | A part of a reply behind whole ones is left for later |
| `RespWire.BadTypeByteExactly` | win/hiredis/read.c:389-393 | A byte where a reply begins is refused if and only if it is none of the five, and no other byte is ever refused |
| `RespWire.StreamStops` | win/hiredis/read.c:389-393 | Behind any replies such a byte ends the stream with its error |
| `RespWire.NumberRead` | win/hiredis/read.c:148-173 | A header number is an optional sign and digits by their places, up to a CR; no digits are zero |
| `RespWire.NumberRefused` | win/hiredis/read.c:163-171 | Any other byte among the digits makes the number -1 |
| `SdsBuffer.Sds.MakeRoomFor` | win/hiredis/sds.c:129-147 | Contents stay, the room asked for is there, and the allocation grows by the doubling rule |
| `SdsBuffer.Sds.CatLen` | win/hiredis/sds.c:237-249 | Appends the bytes and the closing NUL |
| `SdsBuffer.Sds.Range` | win/hiredis/sds.c:575-603 | Keeps exactly the part between two inclusive positions, negative ones counted from the end |
| `SdsBuffer.SliceKeeps` | win/hiredis/sds.c:575-603 | For every string cut in three, the middle is kept whenever the two numbers stand for its first and last place, from either end or beyond it |
| `SdsBuffer.SliceDrops` | win/hiredis/sds.c:584-596 | Nothing is kept when the first place is behind the last, or behind the end |
| `SdsNumbers.DecimalLength` | win/hiredis/hiredis.c:203-213 | The number of decimal digits is the number of powers of ten not above the number |
| `SdsNumbers.DecimalFits` | win/hiredis/sds.c:298-357 | Every 64-bit number with its sign and NUL fits 21 bytes |
| `SdsNumbers.NumberSignedDecimal` | win/hiredis/read.c:148-173 | Reading the decimal text of a number gives the number back |
| `SdsNumbers.CountDigits` | win/hiredis/hiredis.c:203-213 | Counts the decimal digits, four at a time |
| `SdsNumbers.Ull2Str` | win/hiredis/sds.c:331-357 | Digit loop and reversal write the decimal digits and a NUL within the buffer |
| `SdsNumbers.Ll2Str` | win/hiredis/sds.c:299-328 | The same with a sign, for every magnitude below 2^63 |
| `SdsNumbers.ReverseInPlace` | win/hiredis/sds.c:318-325 | The swap loop reverses the first `l` bytes and leaves the others |
| `RedisCommand.CatFmt` | win/hiredis/sds.c:425-526 | Appends the rendered format for every format and matching arguments |
| `CatFormat.FormatPrints` | win/hiredis/sds.c:425-526 | Every format prints its directives one after the other: texts as they are, numbers as signed or unsigned decimal numerals, any other byte behind a percent sign as itself |
| `CatFormat.Directives` | win/hiredis/sds.c:425-526 | Every format with the arguments it asks for is such a list of directives |
| `RedisCommand.BulkLen` | win/hiredis/hiredis.c:216-218 | The length of the bulk of every argument of that length |
| `RedisCommand.AppendBulk` | win/hiredis/hiredis.c:517-523 | One turn of the writing loop appends the bulk of one argument |
| `RedisCommand.TotalLength` | win/hiredis/hiredis.c:499-504 | The length computed beforehand is the length of the command |
| `RedisCommand.FormatSdsCommandArgv` | win/hiredis/hiredis.c:487-529 | Emits the command, and the assertion on its length holds |
| `RedisCommand.FormatCommandArgv` | win/hiredis/hiredis.c:540-576 | Emits the same bytes into a buffer that is exactly long enough, and the assertion on the position holds |
| `RedisCommand.ReadCommand` | win/hiredis/hiredis.c:487-529 | For every list of arguments, whatever bytes they hold, the reader finds in the command one array with those arguments and leaves what follows |
| `RedisCommand.ReadCommands` | win/hiredis/hiredis.c:934-945 | Main result: a pipeline of commands is read back in order with every byte consumed |
| `CatFormat.CommandIsWire` | win/hiredis/hiredis.c:487-529 | A command is sent as an array of bulk strings of the protocol |
| `RedisPipeline.AppendCommandArgv` | win/hiredis/hiredis.c:988-1005 | Appends one formatted command to the output buffer |
| `RedisPipeline.AppendAll` | win/hiredis/hiredis.c:934-945 | The output buffer after any pipeline |
| `RedisPipeline.Loopback` | win/hiredis/hiredis.c:934-945 | Main result: writer, any cut of the bytes, and resumable reader together give back all arguments of all commands |
| `RedisPipeline.Receive` | win/hiredis/read.c:445-525 | Main result: all replies that a server writes, cut into pieces of any lengths, come out of the resumable reader as they were meant; a byte behind them that is no type byte is the error |
| `SdsSplit.SplitLen` | win/hiredis/sds.c:658-705 | Cuts at every leftmost separator; the doubling array of slots always has room for the final token; null for an empty separator, no token for an empty string |
| `SdsSplit.JoinSds` | win/hiredis/sds.c:962-971 | Joins the tokens with the separator |
| `SdsSplit.JoinUndoesSplit` | win/hiredis/sds.c:658-705 | For every string and non-empty separator, joining the tokens gives the string back |
| `SdsSplit.NoTokenHasSeparator` | win/hiredis/sds.c:681-691 | No token contains the separator |
| `SdsSplit.SplitUndoesJoin` | win/hiredis/sds.c:962-971 | Splitting undoes joining if and only if the list is empty, or is not the list of one empty token and in no token followed by the separator the separator stands earlier |
| `SdsSplit.OneByteSeparator` | win/hiredis/sds.c:681 | With a separator of one byte that means: no token holds the byte, and the list is not that of one empty token |
| `SdsArgs.CatRepr` | win/hiredis/sds.c:740-763 | Appends the quoted representation, for any meaning of `isprint`; a NUL that `isprint` holds of is dropped by the printing function |
| `SdsArgs.GetToken` | win/hiredis/sds.c:827-905 | The cursor loop over one argument, in and out of both kinds of quotes, is the recursive reading of it; never reads past the NUL |
| `SdsArgs.SplitArgs` | win/hiredis/sds.c:815-923 | The arguments of a NUL-terminated line, or none when quotes are unbalanced or a closing quote is followed by another byte |
| `SdsArgs.LineRead` | win/hiredis/sds.c:740-763 | The representations of any list of byte strings, joined by spaces, are read back as that list, each string without the bytes that quoting drops |
| `SdsArgs.SplitUndoesRepr` | win/hiredis/sds.c:740-763 | Main result: the list itself is read back if and only if `isprint` excludes NUL or no string holds one |
| `SdsArgs.EscapedHasNoNul` | win/hiredis/sds.c:740-763 | The quoted text never holds a NUL |
| `SdsArgs.LineHasNoNul` | win/hiredis/sds.c:815-823 | The line of any list is a C string, as the splitter needs |
| `SdsWords.QuotedForm` | win/hiredis/sds.c:740-763 | How each byte is quoted: two bytes and five control bytes behind a backslash, printable bytes as they are, the rest with two lower-case hexadecimal digits |
| `SdsWords.WordRead` | win/hiredis/sds.c:827-905 | A word glued from plain bytes and a text in either kind of quotes is read as the two values joined, and refused when something stands right behind its closing quote |
| `SdsWords.DoubleRead` | win/hiredis/sds.c:832-866 | Between double quotes: bytes, bytes behind a backslash, and hexadecimal pairs, each with its value |
| `SdsWords.SingleQuoted` | win/hiredis/sds.c:867-881 | A text between single quotes, its quotes behind backslashes, is read back if and only if it does not end in a backslash |
| `SdsWords.PlainWords` | win/hiredis/sds.c:882-900 | Words without blanks and quotes, joined by spaces, are the arguments |
| `SdsWords.LineSplit` | win/hiredis/sds.c:815-923 | Every line is words and blanks, and then nothing or something unreadable |
| `SdsWords.Understood` | win/hiredis/sds.c:815-923 | Main result: a line has arguments if and only if it is made of words and blanks, and they are then the values of the words |
| `SdsWords.Refused` | win/hiredis/sds.c:815-923 | Main result: a line has none if and only if, behind some words, a quote is left open or a quoted word has something right behind it |
| `HttpRequestParser.RunSplits` | src/request_parser.hpp:40-597 | Chunk independence: after an indeterminate first part, parsing the second part gives the result, state, request and position of parsing both together |
| `HttpRequestParser.RequestParser.InMethod` | src/request_parser.hpp:60-82 | The inner loop of the method refines one byte at a time |
| `HttpRequestParser.RequestParser.InUri` | src/request_parser.hpp:84-113 | The inner loop of the path refines one byte at a time |
| `HttpRequestParser.RequestParser.InParamName` | src/request_parser.hpp:139-169 | The inner loop of a parameter name refines one byte at a time |
| `HttpRequestParser.RequestParser.InParamValue` | src/request_parser.hpp:171-201 | The inner loop of a parameter value refines one byte at a time |
| `HttpRequestParser.RequestParser.InHeaderName` | src/request_parser.hpp:431-453 | The inner loop of a header name refines one byte at a time |
| `HttpRequestParser.RequestParser.InHeaderValue` | src/request_parser.hpp:470-492 | The inner loop of a header value refines one byte at a time |
| `HttpRequestParser.RequestParser.OneInTarget` | src/request_parser.hpp:44-201 | The states of the target that take one byte |
| `HttpRequestParser.RequestParser.OneInVersion` | src/request_parser.hpp:203-358 | The states of the version |
| `HttpRequestParser.RequestParser.OneInHeader` | src/request_parser.hpp:360-507 | The states of the header lines that take one byte |
| `HttpRequestParser.RequestParser.EndOfHeaders` | src/request_parser.hpp:509-534 | A GET is complete, a POST goes on with the length its header announces, anything else is refused |
| `HttpRequestParser.RequestParser.TakeContent` | src/request_parser.hpp:549-583 | A byte of the body: the count goes down by one, and at zero the request is complete with its announced length restored |
| `HttpRequestParser.RequestParser.Parse` | src/request_parser.hpp:40-597 | The parser with its nested loops, started in any state at any position, gives verdict, state, request and position of the byte-wise run |
| `HttpRequestParser.Request.Header` | src/request.cpp:29-44 | Looks a header up, and adds it empty when it is absent |
| `HttpRequestParser.LookupAgain` | src/request.cpp:29-44 | Looking up adds a header once and changes no value |
| `HttpRequestParser.ReadRequest` | src/request_parser.hpp:40-597 | Main result: for every list of chunks the verdict, the request and the number of bytes taken are those of the whole stream |
| `HttpSyntax.ToInt` | src/request_parser.hpp:524 | The conversion of a long to an int keeps the numbers that fit |
| `HttpSyntax.TokenBytes` | src/request_parser.cpp:308-346 | The bytes of a token are the letters, the digits and fifteen marks |
| `HttpSyntax.ByteClasses` | src/request_parser.cpp:308-346 | Below 128 every byte is of a token, a separator or a control byte, and only the tab is two of them |
| `StrToLSyntax.NumberRead` | src/request_parser.hpp:524 | Blanks, a sign and a number in decimal, octal or hexadecimal notation, up to what is no digit of it: its value by places, within the limits of a long |
| `HttpPrinter.LengthRead` | src/request_parser.hpp:524 | A decimal length is read back by `strtol` with base 0 |
| `HttpGrammar.QueryRead` | src/request_parser.hpp:115-201 | Any query of the grammar, with a last name without an equals sign or a trailing ampersand, is read as its parameters |
| `HttpGrammar.VersionRead` | src/request_parser.hpp:203-358 | Any two runs of digits are read as their numbers, leading zeros included |
| `HttpGrammar.LinesRead` | src/request_parser.hpp:360-492 | Header lines and the lines that continue them are read as headers, each continuation added to the last value without its blanks |
| `HttpGrammar.ContentLoop` | src/request_parser.hpp:565-583 | While a body is read the remaining count and the bytes taken add up to the announced length |
| `HttpGrammar.EndRead` | src/request_parser.hpp:494-583 | From the blank line on, a GET, or a POST with the body its headers announce, ends in true with the whole body, exactly at its last byte |
| `HttpGrammar.Accepted` | src/request_parser.hpp:40-597 | Every text of the grammar is accepted, whatever follows it; exactly its bytes are taken, and the request that it stands for is rebuilt |
| `HttpLanguage.QuerySplit` | src/request_parser.hpp:115-201 | What gets behind a question mark as far as the blank line begins with a query of the grammar |
| `HttpLanguage.LinesSplit` | src/request_parser.hpp:360-507 | What gets behind the request line as far as the blank line begins with header lines of the grammar |
| `HttpLanguage.CountedSplit` | src/request_parser.hpp:565-583 | A body is accepted only when the count is positive and that many bytes are there |
| `HttpLanguage.EndSplit` | src/request_parser.hpp:494-583 | What is accepted from the blank line on is the end of a GET, or of a POST with an announced body that starts with a token byte |
| `HttpLanguage.Recovered` | src/request_parser.hpp:40-597 | Every accepted input begins with a text of the grammar |
| `HttpLanguage.Language` | src/request_parser.hpp:40-597 | Main result: an input is accepted if and only if it begins with a text of the grammar; the parser takes exactly that text and rebuilds what it stands for |
| `HttpLanguage.OneReading` | src/request_parser.hpp:40-597 | No text of the grammar ends inside another, and none stands for two requests |
| `HttpVerdicts.BodyWaits` | src/request_parser.hpp:536-583 | Behind the blank line of a POST more is awaited exactly as long as the body starts with a token byte and is not complete |
| `HttpVerdicts.CanPass` | src/request_parser.hpp:40-507 | From every state of the head that can be reached some bytes lead to the blank line: the parser is never caught in a state |
| `HttpVerdicts.Awaited` | src/request_parser.hpp:40-597 | Main result: more is awaited if and only if the input is a part of the head of some text of the grammar, or the head of a POST and an unfinished body |
| `HttpVerdicts.Verdicts` | src/request_parser.hpp:40-597 | Main result: all three verdicts for every input, and none comes later than it can: a refusal comes with the first byte with which no text of the grammar begins any more |
| `HttpVerdicts.Unannounced` | src/request_parser.hpp:509-534 | A POST that announces no length is refused at its blank line, and the lookup has left an empty header |
| `HttpPrinter.RoundTrip` | src/request_parser.hpp:40-597 | Main result: parsing a printed well-formed request, whatever follows it, returns true, takes exactly the printed bytes and rebuilds method, uri, parameters, headers and body |
| `HttpPrinter.FirstBodyByte` | src/request_parser.hpp:536-563 | With everything else in order, a printed POST is accepted if and only if the first byte of its body is a token byte; otherwise the verdict is false |
| `RedisAsync.CallbackList.Push` | win/hiredis/async.c:236-256 | The head and tail list appends to a queue |
| `RedisAsync.CallbackList.Shift` | win/hiredis/async.c:258-272 | The head and tail list takes the oldest callback; at the end the tail is null again |
| `RedisAsync.AsyncContext.Command` | win/hiredis/async.c:592-657 | Accepts an ordinary command, with its callback at the end of the queue and its bytes in the output buffer, unless the context is closing |
| `RedisAsync.AsyncContext.RunCb` | win/hiredis/async.c:274-281 | The callback runs with its flag set, and whatever it calls on the context takes effect on the queue and flags |
| `RedisAsync.AsyncContext.FreeNow` | win/hiredis/async.c:284-326 | The drain loop ends, every pending callback runs with NULL, the release is last |
| `RedisAsync.AsyncContext.AsyncFree` | win/hiredis/async.c:332-337 | Frees at once, or inside a callback only notes it |
| `RedisAsync.AsyncContext.DisconnectNow` | win/hiredis/async.c:340-358 | Tears down, marking the context as disconnecting first when there is an error |
| `RedisAsync.AsyncContext.AsyncDisconnect` | win/hiredis/async.c:366-371 | Disconnects at once only outside callbacks with nothing pending |
| `RedisAsync.AsyncContext.ProcessCallbacks` | win/hiredis/async.c:420-498 | The reply loop is the recursive machine |
| `RedisAsync.AsyncContext.HandleConnect` | win/hiredis/async.c:503-520 | First event on a connecting socket |
| `RedisAsync.AsyncContext.HandleRead` | win/hiredis/async.c:525-544 | Readable event |
| `RedisAsync.AsyncContext.HandleWrite` | win/hiredis/async.c:546-571 | Writable event |
| `RedisAsync.AsyncContext.Handle` | win/hiredis/async.c:525-571 | Any call or event, on the linked structure, is that input of the machine |
| `RedisAsync.Serve` | win/hiredis/async.c:420-657 | Main result: a context in use follows the machine over any sequence of inputs; its log is exact, its commands and callbacks are those asked for before a disconnect or free was, the replies it delivers are those the reader read, in order and without gaps, and the bytes written and buffered are its commands in order |
| `AsyncModel.CallbackGrows` | win/hiredis/async.c:592-657 | A callback, whatever it calls, only appends commands and sets flags |
| `AsyncModel.CallbackWhileClosing` | win/hiredis/async.c:602-603 | Once closing, a callback gets no command accepted |
| `AsyncModel.Answered` | win/hiredis/async.c:446-485 | Answering the oldest command keeps the log exact |
| `AsyncModel.DrainAnswers` | win/hiredis/async.c:290-292 | Teardown answers every pending command with NULL, in order |
| `AsyncModel.ProcessingAnswers` | win/hiredis/async.c:420-498 | Processing replies keeps the context live and exact, or releases it |
| `AsyncModel.ProcessingTakes` | win/hiredis/async.c:420-498 | Processing takes replies from the front of the inbox in order, and all of them unless the context is released or an assertion fails |
| `AsyncModel.RunTransfers` | win/hiredis/async.c:420-573 | Along a run the replies delivered are those read from the inputs, and the bytes written and buffered are the commands accepted |
| `AsyncModel.DeliveryTheorem` | win/hiredis/async.c:236-657 | Main result, for every user program and every run: each answered command ran its callback once, in submission order, the k-th with the k-th reply that the inputs brought, or with NULL at teardown; no reply read is lost or passed over while the context lasts; the release is at most one, last, never inside a callback; the assertion of a clean disconnect never fails |
| `AsyncModel.WireTheorem` | win/hiredis/async.c:538-573 | Main result: in every run the bytes written so far and the output buffer are the accepted commands, in the order of their submission |
| `AsyncCalls.CommandTheorem` | win/hiredis/async.c:592-657 | Main result, for every program and every run: the commands accepted, their bytes and their callbacks are exactly those asked for, from outside or by a callback, before any disconnect or free was asked for; while the context lasts it is closing exactly if a disconnect was asked for |
| `AsyncCalls.EndTheorem` | win/hiredis/async.c:284-573 | Main result: after any run, exactly which calls and events end the context: a free, an error on the socket or behind the replies, a reply that no command waits for, or a disconnect once everything is written and answered; otherwise what it remembers of its socket |
| `AsyncCalls.Batch` | win/hiredis/async.c:420-498 | How a batch of replies goes: the calls that its callbacks make, what of them is accepted, and whether the context is over |
| `AsyncModel.OutcomesCount` | win/hiredis/async.c:477-485 | Each command with a callback has its event exactly once |
| `AsyncModel.ClosingTheorem` | win/hiredis/async.c:602-603 | Main result: once a disconnect or free was asked for, no run accepts another command |
| `HashChains.MaskInRange` | win/hiredis/dict.c:117 | A masked hash is at most the mask |
| `HashChains.MaskIsRemainder` | win/hiredis/dict.c:117 | With a size that is a power of two the mask picks the remainder of the hash |
| `HashChains.NoPowerBetween` | win/hiredis/dict.c:306-315 | Between a power of two and its double there is none |
| `Dict.NextPower` | win/hiredis/dict.c:306-315 | The least power of two, from four on, that is not below the size |
| `Dict.Push` | win/hiredis/dict.c:117-119 | One entry becomes the first of its list and no other list changes |
| `Dict.Dict.MoveChain` | win/hiredis/dict.c:111-123 | Every entry of one old list, and no other, moves to the new table; the count goes down once for each |
| `Dict.Dict.Rehash` | win/hiredis/dict.c:103-125 | After the copying loop, also when it stops early, no entry is missing or doubled and the count is zero, as asserted |
| `Dict.Dict.Expand` | win/hiredis/dict.c:88-132 | Refuses exactly when the entries would not fit; otherwise the same entries in a table of the next size |
| `Dict.Dict.ExpandIfNeeded` | win/hiredis/dict.c:295-303 | Never fails; creates, doubles or keeps the table, and leaves room for one more |
| `Dict.Search` | win/hiredis/dict.c:328-335 | Walks one list to the entry with the key, or finds that there is none |
| `Dict.Dict.Find` | win/hiredis/dict.c:243-256 | Null exactly when the map lacks the key, otherwise the entry with the key and its value |
| `Dict.Dict.KeyIndex` | win/hiredis/dict.c:320-337 | -1 exactly when the key is there; otherwise the bucket of the key, in a table with room |
| `Dict.Dict.Add` | win/hiredis/dict.c:135-154 | Adds to the map, or fails and changes nothing exactly when the key is there |
| `Dict.Dict.Replace` | win/hiredis/dict.c:160-179 | Sets the value of the key; the lookup inside never yields null |
| `Dict.Dict.Delete` | win/hiredis/dict.c:182-210 | Removes the key from the map and its entry from its list, and touches nothing else |
| `Dict.Unlink` | win/hiredis/dict.c:193-197 | Taking an entry out of its list by the entry before it leaves the rest of the list in order |
| `Dict.Dict.SizeAndCount` | win/hiredis/dict.c:88-210 | The size is zero or a power of two from four on, and the count is the number of keys and at most the size |
| `Dict.Dict.Placement` | win/hiredis/dict.c:88-210 | Each key has one entry, in the list of its hash modulo the size, and in no other |
| `DictRuns.Perform` | win/hiredis/dict.c:135-256 | One operation does to the table what it does to a map and answers alike |
| `DictRuns.PerformAll` | win/hiredis/dict.c:88-256 | Every sequence of operations on any table answers like the map and ends with its contents |
| `DictRuns.Run` | win/hiredis/dict.c:88-256 | Main result: every sequence of operations from the empty table answers like the map and ends with its contents |
| `DictIterator.Iterator.Next` | win/hiredis/dict.c:268-286 | Returns an entry not yet returned, or null exactly when none remains |
| `DictIterator.Iterator.DeleteReturned` | win/hiredis/dict.c:277-280 | Deleting the entry just returned does not disturb the iterator |
| `DictIterator.DeletedBehind` | win/hiredis/dict.c:277-280 | Taking out an entry already passed leaves the place and the remaining keys as they were |
| `DictIterator.Walk` | win/hiredis/dict.c:258-286 | Main result: a walk that deletes any choice of just-returned entries sees every key of the start once with its value, then null, and null again |
| `PercentCoding.PercentEncode` | src/utility.cpp:187-225 | The loop computes the coding |
| `PercentCoding.PercentDecode` | src/utility.cpp:227-263 | The loop computes the decoding, and reads at most the closing NUL |
| `PercentCoding.DecodeUndoesEncode` | src/utility.cpp:187-263 | Every byte string comes back |
| `PercentCoding.EncodedBytes` | src/utility.cpp:187-225 | A coded string holds percent signs and unreserved bytes only |
| `PercentCoding.HexRoundTrip` | src/utility.cpp:160-185 | `hex2char` undoes `char2hex` |
| `PercentCoding.EncodeForm` | src/utility.cpp:187-225 | The nine marks, the letters and the digits stay as they are; any other byte becomes a percent sign and two upper-case digits |
| `PercentCoding.DecodePlus` | src/utility.cpp:237-240 | A plus sign is a space |
| `PercentCoding.DecodeCoded` | src/utility.cpp:241-249 | A percent sign with two hexadecimal digits of either case is the byte they name |
| `PercentCoding.DecodeOther` | src/utility.cpp:250-258 | Any other byte, also a percent sign without two digits, is itself |
| `Base64.Base64Encode` | src/utility.cpp:294-347 | The loop over groups of three computes the coding |
| `Base64.Base64Decode` | src/utility.cpp:349-405 | The loop over groups of four computes the decoding, up to the first byte outside the alphabet |
| `Base64.EncodedLength` | src/utility.cpp:294-347 | Four characters for every three bytes begun |
| `Base64.OctetsOfTail` | src/utility.cpp:382-402 | In the tails neither the NUL that fills the group nor the truncated place of a NUL reaches the result |
| `Base64.DecodeUndoesEncode` | src/utility.cpp:294-405 | Every byte string comes back |
| `Base64.Alphabet` | src/utility.hpp:88-91 | The 64 characters in their order |
| `Base64.SameNumber` | src/utility.cpp:294-347 | Three bytes and their four digits are the same number |
| `Base64.DecodeIgnores` | src/utility.cpp:349-405 | Decoding stops at the first byte outside the alphabet, padded or not, whatever follows it |
| `ByteSearch.Find` | src/utility.cpp:136-153 | The first match from a place on, and none before it |
| `ByteSearch.StringsAreEqual` | src/utility.cpp:117-134 | True exactly when both have the first `n` bytes and they agree but for case |
| `FormPairs.PairsOfForm` | src/request_parser.cpp:157-206 | Reading undoes coding for every list of names and values |
| `FormPairs.LoneName` | src/request_parser.cpp:170-192 | A coded name alone before an ampersand becomes a parameter with an empty value |
| `FormPairs.ItemsRead` | src/request_parser.cpp:157-206 | For every form of pairs and lone names: all is read, a lone name with an empty value, but for a lone name at the end |
| `FormPairs.MixedForm` | src/request_parser.cpp:165-192 | Main result: a form of pairs and lone names is read as meant if and only if it is empty, ends in a pair, or ends in an empty name |
| `FormContent.ParsePairs` | src/request_parser.cpp:159-206 | The scan ends on every body, since its place strictly grows, and appends the pairs |
| `FormContent.FormRoundTrip` | src/request_parser.cpp:157-206 | Main result: a coded form appends exactly its pairs, in order |
| `FormLanguage.TypeOfPairs` | src/request_parser.cpp:146-157 | Exactly the types that are read as pairs: none, or one that begins with the standard one in letters of either case |
| `FormLanguage.TypeOfParts` | src/request_parser.cpp:148-207 | Exactly the types that are read as parts |
| `FormLanguage.FormBody` | src/request_parser.cpp:159-206 | Main result: every body is fields of names and values in any percent coding, each up to an ampersand or, behind an equals sign, a semicolon; and what is read is what the fields mean |
| `FormLanguage.FormUnderType` | src/request_parser.cpp:146-206 | The pairs of a body are appended to the parameters under each of these types |
| `Multipart.HeaderOfFile` | src/request_parser.cpp:252-269 | From the head of a rendered upload name, filename and type are read back, though one label is a part of another |
| `Multipart.HeaderOfField` | src/request_parser.cpp:252-269 | From the head of a rendered field the name is read back, and no filename is found |
| `Multipart.PartRoundTrip` | src/request_parser.cpp:271-294 | Reading a part undoes rendering it if and only if an upload has a filename |
| `Multipart.PartRead` | src/request_parser.cpp:271-294 | A rendered part is read back whatever the two bytes behind it; an upload without a filename becomes a field |
| `Multipart.PartRefused` | src/request_parser.cpp:271-280 | A part is refused if and only if nothing ends its head |
| `MultipartLanguage.Extracted` | src/utility.cpp:136-153 | Between the first match of one text and the next match of another |
| `MultipartLanguage.ExtractedNothing` | src/utility.cpp:136-153 | Nothing when either text is missing |
| `MultipartLanguage.EveryPart` | src/request_parser.cpp:271-294 | Every part whose head ends: the value is what follows without its last two bytes, or all of fewer than two; a part with a decoded filename is an upload |
| `MultipartLanguage.EveryBody` | src/request_parser.cpp:226-248 | Main result: every body and boundary: what stands between the separators in order, and what stands before the final one; without any separator, what is left behind as many bytes as the wrapped place skips |
| `MultipartLanguage.BoundaryBehind` | src/request_parser.cpp:209-224 | The boundary is what comes behind the first label, up to a semicolon |
| `MultipartLanguage.BoundaryWithout` | src/request_parser.cpp:209-224 | Without a label it is what comes behind eight bytes, where the wrapped place begins |
| `Multipart.Between` | src/utility.cpp:136-153 | What `extract_between` yields between two texts |
| `MultipartBody.CommutesWithDashes` | src/request_parser.cpp:212-224 | Only words of dashes commute with two dashes |
| `MultipartBody.SeparatorInFinal` | src/request_parser.cpp:212-224 | The separator stands in the final separator if and only if the boundary is of dashes only |
| `MultipartBody.FoundBehind` | src/request_parser.cpp:233-243 | A separator behind a part is found where it was put: no match crosses the end of a line |
| `MultipartBody.PiecesOfBody` | src/request_parser.cpp:226-248 | The pieces of a rendered body are its parts, each with its line end; with a boundary of dashes the last piece also keeps the first two dashes of the final separator |
| `MultipartBody.MultipartRoundTrip` | src/request_parser.cpp:226-248 | All parts are collected in order, for every boundary of one line that does not stand in a part |
| `MultipartBody.CollectSorts` | src/request_parser.cpp:271-294 | Parts with a filename go to the uploads and all others to the parameters, each list in the order of the body |
| `MultipartBody.CollectStops` | src/request_parser.cpp:271-280 | The parts before the first that cannot be read are collected, and no others |
| `MultipartBody.ReceivedAsSent` | src/request_parser.cpp:226-248 | What the parser collects from a rendered body is the fields and files sent, if and only if there are no parts or the boundary has a byte that is no dash |
| `FormContent.ParseMultipartContent` | src/request_parser.cpp:271-294 | Appends one parameter or upload, or fails and appends nothing exactly when the head does not end |
| `FormContent.ParseParts` | src/request_parser.cpp:207-249 | The two searches collect the pieces in order, up to the first that cannot be read |
| `FormContent.ParseContent` | src/request_parser.cpp:146-250 | The branch on the content type, and the whole new state of the request |
| `FormContent.MultipartContentRoundTrip` | src/request_parser.cpp:207-249 | Main result: with any boundary of one line without a semicolon, any further attributes of the type, and parts with readable names, the same fields and uploads come back; a boundary of dashes only adds a line end to the last value |
| `FormContent.MultipartAsSent` | src/request_parser.cpp:207-249 | Main result: the content of a multipart request is the fields and files sent, if and only if there are no parts or the boundary has a byte that is no dash |
| `ConnectionPool.FillPool` | src/dbconn_pool.cpp:76-96 | Fills the pool, or stops at the first connection that does not answer and deletes that one only |
| `ConnectionPool.LockEffect` | src/spinlock.hpp:21-32 | A step enters the section when the lock was free, or leaves it and frees the lock, or changes neither |
| `ConnectionPool.ExclusiveStep` | src/spinlock.hpp:21-32 | Exclusion, and that a taken lock has a thread that took it, are kept by every step |
| `ConnectionPool.VectorInSection` | src/dbconn_pool.cpp:100-113 | The vector is touched between `lock` and `unlock` only |
| `ConnectionPool.StorageStep` | src/dbconn_pool.cpp:98-141 | Every step keeps each open connection in one place |
| `ConnectionPool.Balance` | src/dbconn_pool.cpp:115-120 | Pooled connections, reconnects under way and losses balance in every step |
| `ConnectionPool.InvStep` | src/redis_pool.cpp:82-125 | Every step of any thread keeps the whole invariant; the second pool runs the same protocol |
| `ConnectionPool.MutualExclusion` | src/spinlock.hpp:21-32 | Main result: in every run at most one thread is between `lock` and `unlock` |
| `ConnectionPool.OncePlace` | src/dbconn_pool.cpp:98-141 | Main result: in every run each open connection is in one slot of the pool or held by one thread, never both |
| `ConnectionPool.OverflowStaysOut` | src/dbconn_pool.cpp:125-131 | Main result: in no run does a connection opened because the pool was empty get into it |
| `ConnectionPool.LostCounts` | src/dbconn_pool.cpp:98-141 | The connections given up in a run are its failed reconnects |
| `ConnectionPool.Conservation` | src/dbconn_pool.cpp:98-141 | Main result: in every run pooled connections in, pooled connections out and reconnects under way are the size of the pool less the failed reconnects; they are the size of the pool if and only if no reconnect failed |
| `ConnectionPool.SectionProgress` | src/spinlock.hpp:29-32 | A thread that has the lock gives it back within four of its own steps |
| `PoolOperations.Begins` | src/dbconn_pool.cpp:98-121 | An operation starts when its caller wants it, a release only with a connection that the thread has |
| `PoolOperations.WaitsForLock` | src/spinlock.hpp:21-27 | A thread that wants the lock has it after its first step at which it is free, and changes nothing before |
| `PoolOperations.OtherThread` | src/dbconn_pool.cpp:98-141 | A step of another thread leaves a thread, its connections and, in its section, the vector alone |
| `PoolOperations.GetTakes` | src/dbconn_pool.cpp:98-121 | Main result, in every run from any reachable state: a get that finds a connection takes the one on top and leaves the pool one shorter; if it answers the thread has it, if not it is closed and one pooled successor opened |
| `PoolOperations.GetOverflows` | src/dbconn_pool.cpp:98-108 | Main result: a get that finds the pool empty ends with one new connection that is not pooled |
| `PoolOperations.ReleaseReturns` | src/dbconn_pool.cpp:123-141 | Main result: a released pooled connection is the new top of a pool that is one longer and else unchanged |
| `PoolOperations.ReleaseCloses` | src/dbconn_pool.cpp:125-129 | A connection that is not pooled is closed, and the pool left alone |
| `PoolOperations.OverflowBound` | src/dbconn_pool.cpp:102-108 | Main result: in every run, connections that are not pooled are opened at most once for every look at an empty pool |

## Left out

- Publish and subscribe, and monitor mode, of `async.c`: the callback variable is reused across turns of the reply loop and re-pushed, so delivery is a property of ordinary commands only.
- `onConnect` and `onDisconnect` callbacks of `async.c`, and the event library adapters: assumed not to tear the context down.
- The reader inside the asynchronous context is an inbox of replies and a flag for an error behind them; what replies a byte stream gives is the subject of `RedisReader.Run`. A command's number stands for its private data pointer.
- Sockets, servers, connections, routes, sessions, configuration, logging, gzip, MD5 and the MySQL wrapper: input and output, or thin layers over libraries not shown.
- The printf-style cases of `redisvFormatCommand` and `sdscatvprintf`, and `sdscatprintf` with them: they rest on varargs of the C library; the uses the model needs (`%c`, `%02x`) are written out.
- Allocation failure everywhere; `realloc` is a fresh array with the old contents, and freed memory is simply no longer referred to.
- RedisReader.ReadLongLong: does not wrap at 64 bits; a header number of the protocol is unbounded here, and counts of 2^31 and more are not truncated. A negative array count other than -1 reads as an empty array.
- SdsNumbers.Ll2Str: leaves out the least signed 64-bit number, whose magnitude the signed type does not have.
- Error texts: the reader keeps which protocol error it met, not the message.
- `rstack` and `ridx`, two fields of the reader, are grouped in a class of their own.
- `_dictClear` and `dictRelease`, destructors and duplicators of keys and values: they would only add loops that free.
- Dict.NextPower: leaves out sizes of nearly `LONG_MAX`, where the code gives no power of two. The hash function is a parameter.
- Adding to a hash table during a walk: the source does not promise anything then.
- The count of a body whose announced length is zero or less goes on below every number here, so such a POST is never accepted; the overflow of the `int` after 2^31 bytes is not modelled.
- Cookies, `parse_params`, `get_extension` and the two-argument comparison of strings: easy members that no hard property needs.
- The waiting time before a pooled connection is pinged is part of the outcome a schedule gives; a ping that throws is not modelled.
- ConnectionPool.FillPool: runs before there are threads, and a `connect` that throws in it is taken for a connection that does not answer.
- Weak memory: the lock is an atomic exchange and an atomic store, and steps of threads interleave.
