# A verified model of p4d and its 4D driver

p4d is a Python DB API driver for the 4D SQL server. Its bundled C library (`lib4d_sql`)
speaks the wire protocol; the Python layer (`p4d/p4d.py`) adds cursors, parameter
expansion and transactions. This project models both in Dafny and proves what they do.

## How the model is built

Two descriptions of the driver stand side by side.

* **The flat stream.** `Codec`, `Header`, `Protocol`, `Session` and `Fetch` are pure
  functions over the byte sequence the server sends: what a header says, what a body decodes
  to, what loading a page or running a list of commands comes to.
* **The objects.** `Stream`, `ResultArena`, `Driver`, `Pager`, `Client` and `PyCursor` are
  classes with the fields the C structures and the Python cursor have: the 64 KB read buffer,
  the arena's linked chunks, the element table, the connection's error code. Their methods
  are the loops of the source, and every one of them is proved to do what the pure function
  says, however `recv` cuts the stream into pieces.

Everything the users of the driver rely on is then proved about the pure side and holds for
the objects:

* the row decoder accepts exactly the encodings of rows of the announced types;
* replies back to back on the wire are taken apart exactly at their boundaries;
* column names and types survive Base64, bracketing and splitting;
* a windowed result cannot be told from the flat table, for any page sizes the server picks;
* against any server at all, the ranges asked for follow one another inside the table;
* `fetchall` returns every row or raises, and exactly the replies for which it does neither
  are named.

`Scan.ExecuteFetchAll` puts the layers together: execute and `fetchall` on the objects return
the server's table, or raise when a page on the way breaks.

`Requests` formats the execute messages. `Wire`, `Messages` and `Answers` pin the wire format
itself: the bytes of each kind of cell, the lines of each request as a reader finds them, and
the replies that carry no rows, all in literal bytes and characters.

`Ownership` is a second model of page loading that follows the heap blocks only: `malloc`
may fail anywhere, a block may be freed only while it is live, and over a result's whole life
every block is freed exactly once, unless a release leaves its table: exactly when that
happens is part of the theorem. `Expansion`, `MultiQuery`, `Params` and `Transactions`
cover the query text, the parameters and the order of statements sent.

## What the proofs found

* `fourd_errno` hands out the 64-bit error code as an `int`
  (lib4d_sql/fourd.c:149-152). A row error whose code is a multiple of 2^32 makes
  `fetchone` return `None`, and `fetchall` a short list, without an exception
  (`Fetch.SilentTruncation`). The same happens for a reply whose header has no space, or no
  line end behind its first space, and for one that announces several result types: these are
  the only ones (`Fetch.QuietIff`).
* Two aliases arrive as one when a column name other than the last ends in `]`
  (`Aliases.AliasesMerged`); otherwise splitting inverts joining (`Aliases.AliasesSplitIff`).
* `get` copies one character less than the line holds, which is what removes the carriage
  return outside Windows (lib4d_sql/fourd_interne.c:532-540).
* VK_TIME and VK_TEXT do not come back from their own type names (`Header.TypeRoundTrip`).
* A non-null IMAGE parameter is written as a status byte without a value, so that the data
  block is no longer the encoding of the parameters (`Params.BlockIsEncoding`).
* A page of nulls has no arena and is released by a walk over its table, as long as a column
  count that need not be the table's own: that of the reply which replaces the page, and at
  the end that of the first reply. Over a whole run every walk stays inside its table exactly
  when no such table meets a larger count (`Ownership.Lifetime`, `Ownership.SafeExactly`). It
  fails for a page reply that announces more columns (`Ownership.MoreColumns`), and for one
  that announces fewer when the result is released (`Ownership.FewerColumns`).
* `Row-Count` is the beginning of `Row-Count-Sent`. The lines of a header may stand in any
  order but for these two: when the second comes first, the row count read is that of the
  page (`Headings.RowCountRight`).
* A START TRANSACTION that is never sent leaves `in_transaction` set, and the next statement
  goes out in no transaction (`Transactions.LostStart`); a COMMIT or ROLLBACK the server
  refuses does the same. Nothing else can (`Transactions.DoKeeps`).
* List expansion keeps the surplus of `?` over parameters only when there are enough `?`
  (`Expansion.Balance`, `Expansion.Unbalanced`); that the text is the one-pass expansion
  holds without any such condition.
* The buffer of an execute message without parameters is sized without the image types: with
  more than 43 characters of image types and page size the message goes out without its end
  (`Requests.ExecuteWhole`).
* `1;[x]` is not seen as two statements: only a plain character after the semicolon counts
  (`MultiQuery.MultiExactly`).

## What is assumed

* The server of the paging proofs (`Cursor.PageOk`) sends at least one row per page and as
  many as its header comes to, of the same column types. What the driver copies into the
  second result, columns, updateability and number of rows asked for, a page header may leave
  out: `Cursor.RenderedPage` shows that a header with all lines will do, `Cursor.BarePage` that
  one with none will, `Scan.Example` gives a server that uses both. Columns times rows are
  below 2^32, because the element index has 32 bits; the page size is below 2^31.
* In the theorems about whole headers and tables, values fit the buffers they are read into
  (`Header.FieldsFit`, `Header.NamesFit`).
* Length fields are little endian, as on the machines the driver is built for.
* Bytes are integers below 256; text is a sequence of characters, each from one byte.
* Values are delivered as they are in the C structures. Reading them back through the element
  table's pointers is modelled (`Pager.ReadValue`), turning them into Python objects is not.

## Model

| member | source | states |
|---|---|---|
| Codec.DecodeBodyIff | lib4d_sql/communication.c:335-530 | decoding n rows succeeds with these cells and this rest exactly when the bytes are the encoding of n rows of the column types, followed by the rest, and the cells are those rows' with empty BLOBs as NULL |
| Codec.DecodeBodySound | lib4d_sql/communication.c:335-530 | on any bytes: all columns times rows cells, each null or of its column's type within the caps, or a failure with a non-zero code |
| Codec.CellDecodes | lib4d_sql/communication.c:400-524 | a written cell decodes to itself (an empty BLOB to NULL) and leaves what follows |
| Codec.CellIsCell | lib4d_sql/communication.c:400-524 | whatever decodes as a cell is the encoding of a value of that type |
| Codec.RowsDecode | lib4d_sql/communication.c:368-525 | rows, with or without row prefixes, decode to their cells and use up exactly their bytes |
| Codec.RowsAreRows | lib4d_sql/communication.c:368-525 | bytes that decode as n rows are the encoding of n rows |
| Codec.CellAt | lib4d_sql/fourd.c:262-264 | element r*columns+c of the table is cell c of row r |
| Wire.FixedCell | lib4d_sql/fourd_type.c:109-149 | behind byte 49 a fixed cell takes 2, 4 or 8 bytes by its type and exactly those; with fewer the connection is lost |
| Wire.FixedTypes | lib4d_sql/communication.c:417-425 | the types read so are exactly those with such a width |
| Wire.NullCell | lib4d_sql/communication.c:401-404 | byte 48 alone is a null cell |
| Wire.ErrorCell | lib4d_sql/communication.c:384-409 | behind byte 50, in a row prefix or a cell, stand the eight bytes of the code that is reported, 0 as -1 |
| Wire.CodeCut | lib4d_sql/communication.c:384-409 | a code cut short is the unsigned value of the bytes that came |
| Wire.BadCell | lib4d_sql/communication.c:388-413 | any other status, and a value of a type without a format, is refused with code -1 |
| Wire.StampCell | lib4d_sql/communication.c:431-443 | a timestamp's eight bytes: signed year, month, day, unsigned milliseconds |
| Wire.StringCell | lib4d_sql/communication.c:466-493 | minus the number of units in four bytes, then two bytes a unit; which lengths are refused, with literal bounds |
| Wire.BlobCell | lib4d_sql/communication.c:494-517 | the number of bytes in four bytes, then the bytes; which lengths are refused and that none is null |
| Wire.FloatCell | lib4d_sql/communication.c:444-465 | exponent, sign, length and digits; which lengths are refused |
| Wire.Prefixes | lib4d_sql/communication.c:370-392 | an updateable row starts with byte 48, or 49 and four bytes; another with nothing |
| Wire.NothingRead | lib4d_sql/communication.c:346-368 | without columns or rows nothing is taken off the stream |
| Wire.WordAndNull | lib4d_sql/communication.c:400-430 | the bytes 49 5 0 48 are a word of 5 and a null |
| Stream.HeaderExact | lib4d_sql/communication.c:273-303 | a header is complete at n exactly when its first CRLFCRLF ends there, before 2^20 bytes |
| Stream.HeaderPrefix | lib4d_sql/communication.c:273-303 | bytes behind the terminator change nothing |
| Stream.Connection.RbufFill | lib4d_sql/communication.c:44-55 | a refill changes no byte of the stream and reports its end only when nothing is left |
| Stream.Connection.BufRecv | lib4d_sql/communication.c:59-90 | for any cutting up by recv: exactly n bytes go to dst and leave the stream, or the stream ends |
| Stream.Connection.ReceiveHeader | lib4d_sql/communication.c:257-310 | returns the header ReadHeader finds, leaves the byte behind it next, and never writes outside the doubling block |
| Stream.Connection.SendAll | lib4d_sql/communication.c:221-240 | everything is sent in order, or the connection is lost after what the peer accepted |
| ResultArena.MemoryBound | lib4d_sql/fourd_interne.c:984-1005 | after any run of allocations the chunks hold at most twice the rounded sizes plus 256 KiB |
| ResultArena.ArenaSafe | lib4d_sql/fourd_interne.c:986-1005 | all blocks of a run are aligned, lie in chunks still there, and do not overlap |
| ResultArena.Arena.Alloc | lib4d_sql/fourd_interne.c:986-1005 | the linked list behaves like the run above: the block is new, and everything handed out before stays |
| ResultArena.Arena.FreeAll | lib4d_sql/fourd_interne.c:1006-1015 | every chunk is released once, newest first, and the list is empty |
| Base64.RoundTrip | lib4d_sql/base64.c:59-209 | decoding undoes encoding, with and without the padding, strict or not |
| Base64.Lenient | lib4d_sql/base64.c:161-170 | characters outside the alphabet, other than the pad and NUL, make no difference wherever they stand |
| Base64.EncodedLength | lib4d_sql/base64.c:59-103 | four characters for every three bytes begun |
| Base64.Alphabet | lib4d_sql/base64.c:27-33 | the 64 characters, in their order |
| Base64.Vectors | lib4d_sql/base64.c:59-103 | `f`, `fo` and `foo` encode as in section 10 of RFC 4648 |
| Base64.RejectedIff | lib4d_sql/base64.c:161-170 | scanning fails exactly in strict mode and on a foreign character in front of the first pad or NUL |
| Base64.StrictAgrees | lib4d_sql/base64.c:161-170 | where strict decoding succeeds it gives what lenient decoding gives |
| Base64.LoneSextet | lib4d_sql/base64.c:191-203 | a pad is refused exactly when a lone character of a group stands before it, and the end of the text never |
| Base64.EncodeBuffer | lib4d_sql/base64.c:59-103 | the loop writes the encoding and its NUL into a block of exactly that size; too long inputs are refused |
| Base64.DecodeBuffer | lib4d_sql/base64.c:149-209 | the loop with its four-way switch writes the decoding within length+1 bytes, or rejects |
| Aliases.AliasReplace | lib4d_sql/fourd_interne.c:598-617 | ends on every string and changes exactly the spaces of `] [` not preceded by `]`, or near the start |
| Aliases.AliasesSplitIff | lib4d_sql/fourd_interne.c:598-617 | splitting gives the joined names back exactly when none but the last ends in `]` |
| Aliases.AliasesMerged | lib4d_sql/fourd_interne.c:602-611 | the names `a]` and `b` arrive as one alias |
| Aliases.StartSplits | lib4d_sql/fourd_interne.c:603-616 | at the start of the list `]] [` is split as well |
| Header.TypeRoundTrip | lib4d_sql/fourd_type.c:35-104 | a type is read back from its own name exactly when it is not VK_TIME or VK_TEXT |
| Header.FixedNames | lib4d_sql/fourd_type.c:35-71 | the seven names of the fixed types |
| Header.OtherNames | lib4d_sql/fourd_type.c:35-71 | VK_TIME is read as VK_TIMESTAMP, VK_TEXT as VK_STRING, VK_BLOB_OBJ as VK_BLOB |
| Header.NoOtherNames | lib4d_sql/fourd_type.c:35-71 | exactly fifteen names stand for a type |
| Header.CountChecked | lib4d_sql/fourd_interne.c:640-661 | a column count from 0 to 32767 is taken; any other ends the parse with code -1 |
| Header.CountRead | lib4d_sql/fourd_interne.c:761-779 | row counts below zero count as none |
| Header.NumbersApart | lib4d_sql/fourd_interne.c:761-797 | a header without the line for a number leaves that number; a signed statement number is read back |
| Header.OneSpace | lib4d_sql/fourd_interne.c:731-737 | one space at the end of the alias list is taken off, not more |
| Replies.NoStatus | lib4d_sql/fourd_interne.c:556-568 | a header without a space, or without a line end behind the first, is refused and changes the status alone |
| Header.Unbracketed | lib4d_sql/fourd_interne.c:728-758 | a pair of brackets is taken off an alias, and nothing else |
| HeaderReader.GetField | lib4d_sql/fourd_interne.c:511-555 | copying a field into the caller's buffer and decoding it there leaves the value of the first line that mentions it, with every write inside the buffer when the line is shorter than it |
| HeaderReader.NextToken | lib4d_sql/fourd_interne.c:664-683 | the tokenizer returns the non-empty pieces between separators in order |
| HeaderReader.TypesInto | lib4d_sql/fourd_interne.c:662-685 | type names go to the columns in order, surplus ones are dropped |
| HeaderReader.NamesInto | lib4d_sql/fourd_interne.c:728-758 | aliases go to the columns in order without their brackets, surplus ones are dropped |
| Replies.MetadataRecovered | lib4d_sql/fourd_interne.c:639-760 | whatever other lines there are, the columns come out with the names and types put in, each at its place, when the type list fits its buffer |
| Headings.HeadingParsed | lib4d_sql/fourd_interne.c:618-826 | in any order of its lines every field of a result header is recovered, the row count as its line's order allows, and every value fits its buffer |
| Headings.RowCountRight | lib4d_sql/fourd_interne.c:761-778 | the row count is right exactly when its line comes before Row-Count-Sent, or both are equal |
| Headings.BareParsed | lib4d_sql/fourd_interne.c:618-826 | a header of nothing but its status line changes no other field |
| Replies.ErrorReply | lib4d_sql/fourd_interne.c:556-595 | an error reply leaves its code and error status and changes nothing else |
| Replies.GetLine | lib4d_sql/fourd_interne.c:511-541 | the value read is that of the first line whose name starts with the section |
| Replies.GetAbsent | lib4d_sql/fourd_interne.c:515-519 | a section no line mentions is not found |
| Replies.BareLineRead | lib4d_sql/fourd_interne.c:526-540 | a line without a carriage return loses the last character of its value |
| Replies.ClearEnds | lib4d_sql/fourd_interne.c:542-553 | a Base64 value in clear ends at its first NUL |
| Replies.NotBased | lib4d_sql/fourd_interne.c:542-553 | a value that is not Base64 is left as it is |
| Text.AtoiLoose | lib4d_sql/fourd_interne.c:761-787 | white space in front of a number and what follows its digits make no difference |
| Text.AtoiPlus | lib4d_sql/fourd_interne.c:761-787 | nor does a plus sign |
| Text.AtoiSigned | lib4d_sql/fourd_interne.c:780-787 | an int printed with %d is read back, whatever its sign |
| Protocol.CheckReplyExtends | lib4d_sql/fourd_interne.c:828-855 | reading a reply header takes nothing of what follows it |
| Protocol.BodyExtends | lib4d_sql/communication.c:335-530 | nor does reading the rows |
| Protocol.FailedLoadKeeps | lib4d_sql/fourd_interne.c:418-429 | a failed load keeps page and window, and result and connection end with the same code |
| Paging.StepBounded | lib4d_sql/fourd.c:192-202 | whatever the server sends, a step keeps counts and window below 2^31 |
| Paging.StepMoves | lib4d_sql/fourd.c:192-202 | a step moves the row pointer by one whatever happens, changes nothing else without a load, and clears the error number with one |
| Paging.LoadInside | lib4d_sql/fourd_interne.c:399-404 | in every such state a load asks for rows behind those received, at least one, at most a page, all in the table; nothing wraps |
| Paging.EveryScan | lib4d_sql/fourd_interne.c:399-412 | for any bytes that answer an execute and its loads, each load starts where the rows received so far end, and only the last may fail |
| Paging.LoadCount | lib4d_sql/fourd_interne.c:399-404 | with filled pages a scan of a table loads ceil(missing rows / page size) times, with 100 for a page size of 0 |
| Cursor.RequestSmall | lib4d_sql/fourd_interne.c:374-382 | the request never comes near the size of its buffer |
| Messages.FetchRead | lib4d_sql/fourd_interne.c:372-384 | a reader of the page request finds its end, its command, the statement's number, the first and the last row, each in its line |
| Messages.LoadAsks | lib4d_sql/fourd_interne.c:399-418 | a load asks, on the wire, for the rows behind those received: a page, 100 rows by default, or what the table still has |
| Messages.CloseRead | lib4d_sql/fourd_interne.c:463-474 | a reader of the close request finds its end, its command and the statement's number |
| Cursor.LoadNext | lib4d_sql/fourd_interne.c:393-462 | with a page next on the wire, loading turns to exactly that page, whether or not its header repeats the metadata |
| Cursor.StepRefines | lib4d_sql/fourd.c:192-202 | a step moves to row k of the table, inside the window, for any page sizes, and the table seen stays the same |
| Cursor.FieldIsCell | lib4d_sql/fourd.c:245-269 | the field of column c is cell (k, c) of the table |
| Cursor.EndRefines | lib4d_sql/fourd.c:194-196 | after the last row the end is reported and the stream stands behind the last page |
| Cursor.MissingLoads | lib4d_sql/fourd.c:197-199 | when rows are missing behind the pages, the next step loads from what follows them |
| Cursor.RenderedPage | lib4d_sql/fourd_interne.c:618-826 | a page whose header has all its lines, in any order, meets what the paging proofs require |
| Cursor.BarePage | lib4d_sql/fourd_interne.c:410-416 | so does a page whose header is its status line, with the rows asked for |
| Session.PerformExtends | lib4d_sql/fourd_interne.c:94-180 | a reply that answers a command alone answers it the same with other replies behind it |
| Session.Lockstep | lib4d_sql/fourd_interne.c:372-481 | for any commands, replies back to back give every outcome and leave the stream at the byte after the last |
| Session.ExecuteShows | lib4d_sql/fourd.c:512-527 | executing leaves a cursor before the first row of the server's table, for any header that opens it |
| Session.HeadingOpens | lib4d_sql/fourd_interne.c:618-826 | a header with all its lines opens a result of the row count read |
| Answers.UpdateAnswered | lib4d_sql/fourd_interne.c:141-153 | behind an update header the eight bytes of n give the count n and are taken off the stream |
| Answers.UpdateLost | lib4d_sql/communication.c:531-539 | with fewer than eight the connection is lost, with code -1 |
| Answers.NothingMore | lib4d_sql/fourd_interne.c:169-171 | a reply of an unknown kind is its header |
| Answers.RefusalBreaks | lib4d_sql/fourd_interne.c:134-140 | a refused header ends the command with its code |
| Answers.Unsendable | lib4d_sql/fourd_interne.c:123-130 | a message that cannot be sent whole ends the command with code -1, nothing read |
| Answers.KindRead | lib4d_sql/fourd_interne.c:798-824 | `Update-Count` and `Result-Set`, with any spaces behind them, are the two kinds; another word is unknown, several are refused |
| Answers.BlankKind | lib4d_sql/fourd_interne.c:798-811 | spaces alone are refused too |
| Answers.UpdateHeader | lib4d_sql/fourd_interne.c:618-826 | a header with a Result-Type line that says update, and any others but a column count, is accepted as an update |
| Answers.UpdateExample | lib4d_sql/fourd_interne.c:618-826 | the shortest such header, in literal characters |
| Answers.UpdateReply | lib4d_sql/fourd_interne.c:94-180 | executing against a server that answers so gives the server's count and leaves what follows |
| Answers.PageFetched | lib4d_sql/fourd_interne.c:393-462 | fetching gives the rows of the page next on the wire and leaves the stream behind them |
| Answers.CloseAnswered | lib4d_sql/fourd_interne.c:463-481 | closing takes exactly one header and keeps the result, or ends with the header's code |
| Answers.LoadFails | lib4d_sql/fourd_interne.c:418-429 | the code of a failed load: the reply's own, or -1 when it cannot be asked for, does not come or is cut short |
| Answers.MetadataShared | lib4d_sql/fourd_interne.c:414-456 | type names in a page header change the caller's columns exactly when that header announces no count |
| Answers.RunStops | lib4d_sql/fourd_interne.c:372-481 | a run keeps the outcomes up to the first command that fails and leaves the others alone |
| Driver.Result.ReceiveFixed | lib4d_sql/communication.c:417-430 | a fixed-size value lands in a new block and means what the stream held |
| Driver.Result.ReceiveStamp | lib4d_sql/communication.c:431-443 | the fields of a timestamp, or a lost connection |
| Driver.Result.ReceiveFloat | lib4d_sql/communication.c:444-465 | exponent, sign and digits with the length checked |
| Driver.Result.ReceiveString | lib4d_sql/communication.c:466-493 | the negated length checked, the units in a block, two zero bytes behind them |
| Driver.Result.ReceiveBlob | lib4d_sql/communication.c:494-517 | the length checked, the bytes in a block, an empty one null |
| Driver.Result.ReceiveCell | lib4d_sql/communication.c:395-524 | one cell into an element, as the pure decoder says, with the error recorded on result and connection |
| Driver.Result.ReceivePrefix | lib4d_sql/communication.c:370-392 | the status and row id of an updateable row |
| Driver.Result.ReceiveData | lib4d_sql/communication.c:335-530 | the nested loops fill the element table with the decoded cells, or leave the fault's non-zero code on both objects |
| Driver.Result.TraiteHeaderResponse | lib4d_sql/fourd_interne.c:618-826 | the header parse in place sets the fields the pure parse gives, also when it stops halfway |
| Driver.Result.ReceivCheck | lib4d_sql/fourd_interne.c:828-855 | header read and parsed, and the connection's code and status afterwards |
| Driver.MeaningKept | lib4d_sql/fourd_interne.c:977-1005 | later allocations and reads do not change what an element stands for |
| Pager.FetchRange | lib4d_sql/fourd_interne.c:372-391 | request and reply: the outcome of the pure exchange, on the object |
| Pager.SwapPages | lib4d_sql/fourd_interne.c:430-460 | the result holds the new table and arena, and the old chunks are released without touching them |
| Pager.FetchResult | lib4d_sql/fourd_interne.c:393-462 | the result becomes what the pure page load gives, after the request for its range; on failure it keeps its page |
| Pager.NextRow | lib4d_sql/fourd.c:192-202 | the step on the object is the pure step, and a request goes out exactly when it loads, for that range |
| Pager.Field | lib4d_sql/fourd.c:245-269 | the element returned means the pure field; out of bounds sets the error |
| Pager.ReadValue | p4d/p4d.py:440-480 | following the element's pointers gives back the value |
| Client.ExecuteStatement | lib4d_sql/fourd_interne.c:94-180 | executing: update count, first page or nothing more, from the flat stream |
| Client.Close | lib4d_sql/fourd_interne.c:463-481 | the close request goes out, and closing takes exactly its reply |
| Client.ReceiveUpdateCount | lib4d_sql/communication.c:531-539 | the signed 8-byte count, or a lost connection |
| Client.RunSession | lib4d_sql/fourd_interne.c:372-481 | any list of commands on the objects gives the outcomes of parsing the flat stream, and their messages go out in turn |
| Fetch.NoSilentTruncation | p4d/p4d.py:405-430 | fetchall returns all rows left, or a load failed; a failed load raises unless its code's low 32 bits are zero |
| Fetch.QuietIff | p4d/p4d.py:424-430 | which replies are failures with error number zero: exactly three kinds |
| Fetch.SilentTruncation | lib4d_sql/fourd.c:149-152 | such a reply ends the rows without an exception |
| Fetch.BatchThenRest | p4d/p4d.py:497-536 | fetchmany in batches concatenates to what fetchall returns |
| Fetch.BatchSize | p4d/p4d.py:508-515 | a batch holds exactly the rows asked for, a short one fewer |
| Fetch.BatchTable | p4d/p4d.py:508-515 | fetchmany at row k returns rows k to min(k + size, all) of the table, and the next call goes on from there |
| Fetch.StaleError | p4d/p4d.py:424-430 | at the end of the rows an error number left standing raises |
| Fetch.Errno | lib4d_sql/fourd.c:149-152 | a 32-bit code is raised as it is, any other as its low 32 bits |
| Fetch.FetchAllTable | p4d/p4d.py:518-536 | fetchall returns every row of the table once and in order |
| Fetch.BrokenScan | p4d/p4d.py:424-430 | over pages that are right up to one that breaks, fetchall raises |
| Fetch.LostBreaks | lib4d_sql/communication.c:44-55 | a lost connection is such a break |
| PyCursor.DbCursor.FetchOne | p4d/p4d.py:405-494 | the method is the pure fetch, after its three checks in order |
| PyCursor.DbCursor.FetchMany | p4d/p4d.py:497-515 | after its three checks in their own order, the loop is the pure batch, empty for a negative size |
| PyCursor.DbCursor.FetchAll | p4d/p4d.py:518-536 | after the same checks the loop returns the rows or raises the code of the pure scan |
| Scan.ScanIndexable | lib4d_sql/fourd.c:262-264 | over right pages, to the end or up to one that breaks, no element index leaves the page |
| Scan.ExecuteFetchAll | p4d/p4d.py:518-536 | execute and fetchall on the objects return the server's table, or raise when the pages stop short and what follows breaks |
| Scan.Example | lib4d_sql/fourd_interne.c:618-826 | a concrete server that meets the assumptions of the scan, one page with all header lines, one with none |
| Ownership.FreeData | lib4d_sql/fourd_interne.c:862-907 | the page's blocks, and only those, are freed, exactly when the walk, if there is one, stays inside the table |
| Ownership.FetchResult | lib4d_sql/fourd_interne.c:393-462 | for any reply and any failed allocation: a failed load changes nothing and leaks nothing; a load that succeeds stays inside exactly when the old page suits the new count, and the shared column array stays |
| Ownership.FreeResult | lib4d_sql/fourd.c:178-191 | everything the result owns is freed, exactly when its page suits the first count |
| Ownership.Lifetime | lib4d_sql/fourd.c:178-191 | over a whole life with any replies: every release stays inside its table exactly when each page suits the count it is released with, and then every block is freed exactly once |
| Ownership.SafeExactly | lib4d_sql/fourd_interne.c:865-880 | below 2^32 elements that is: no bare table is released with a count larger than its own width |
| Ownership.OneCount | lib4d_sql/fourd_interne.c:452-456 | a server that announces one column count throughout is safe |
| Ownership.MoreColumns | lib4d_sql/fourd_interne.c:880-903 | a run with a page reply of more columns leaves its table |
| Ownership.FewerColumns | lib4d_sql/fourd.c:181-182 | so does a run with a page reply of fewer columns, at the final release |
| Expansion.ReplaceNth | p4d/p4d.py:166-176 | the n-th mark is replaced, or the text stays when there are fewer |
| Expansion.StepExpands | p4d/p4d.py:222-230 | breaking out the first list changes nothing about the one-pass expansion |
| Expansion.GroupShape | p4d/p4d.py:226-228 | a group is marks and commas in turn between parentheses |
| Expansion.FlatShown | p4d/p4d.py:226-228 | a list of k leaves shows as the group of k marks |
| Expansion.ExpandSplit | p4d/p4d.py:216-234 | text with as many marks as parameters is expanded by itself, the rest with the other parameters |
| Expansion.ExpandLists | p4d/p4d.py:216-234 | the loop ends with the one-pass expansion and all the leaves in order |
| Expansion.Balance | p4d/p4d.py:222-230 | exactly when the surplus of marks over parameters is kept |
| Expansion.StepBalance | p4d/p4d.py:222-230 | exactly when one step keeps it |
| Expansion.Unbalanced | p4d/p4d.py:166-176 | one mark short, a list of two loses the balance |
| MultiQuery.IsMultiQuery | lib4d_sql/fourd_interne.c:1127-1225 | the scan with its flags computes the run of the state machine, and the two flags are never both set |
| MultiQuery.NeverBoth | lib4d_sql/fourd_interne.c:1145-1190 | on no text are a name and a string open at once |
| MultiQuery.Samples | lib4d_sql/fourd_interne.c:1127-1225 | `a;b` is two statements; `a; `, `';b'` and `[;b]` are one |
| MultiQuery.StrayBrackets | lib4d_sql/fourd_interne.c:1127-1225 | two stray closing brackets open a name, but not at the start of the request |
| MultiQuery.MultiExactly | lib4d_sql/fourd_interne.c:1127-1225 | yes exactly when a top-level semicolon is later followed by a top-level plain character other than a space |
| Params.Serialize | lib4d_sql/fourd_interne.c:1017-1088 | the growing buffer gets exactly the value's bytes behind what it held |
| Params.WriteParams | lib4d_sql/fourd_interne.c:262-282 | the data block and the type list, parameter by parameter |
| Params.BlockIsEncoding | lib4d_sql/fourd_interne.c:269-282 | the block is the encoding of the values exactly when none is an image |
| Params.BlockDecodes | lib4d_sql/fourd_interne.c:269-282 | the row decoder reads the values back and stops at the block's end |
| Params.TypesRead | lib4d_sql/fourd_interne.c:264-270 | the type list splits into the parameters' type names |
| Params.Statement.BindParam | lib4d_sql/fourd.c:489-511 | the table grows as needed, the parameter is bound and the others stay |
| Params.Statement.BindAll | p4d/p4d.py:266-308 | binding in order leaves exactly the bound values |
| Params.SendParams | lib4d_sql/fourd_interne.c:262-284 | binding a row and writing it out gives the row's encoding exactly when it holds no image |
| Requests.ExecuteWhole | lib4d_sql/fourd_interne.c:109-121 | the message is sent whole exactly when image types and page size take at most 43 characters, and otherwise loses the surplus |
| Requests.ParamWhole | lib4d_sql/fourd_interne.c:286-298 | with parameters it always is |
| Messages.ExecuteRead | lib4d_sql/fourd_interne.c:109-121 | the server finds the end of an execute message exactly when image types and page size take at most 43 characters, and then the page size, the image types and, behind Base64, the statement |
| Messages.ParamRead | lib4d_sql/fourd_interne.c:286-298 | with parameters it always does, and finds the parameter types too |
| Transactions.Language | p4d/p4d.py:604-648 | a log is in order exactly when it begins some sequence of START, statements, COMMIT or ROLLBACK |
| Transactions.RunKeeps | p4d/p4d.py:604-648 | every run sends such a log, and the flag tells whether a bracket is open, until the connection is closed |
| Transactions.DoKeeps | p4d/p4d.py:604-670 | an action keeps this exactly when it loses no START and no COMMIT or ROLLBACK is refused |
| Transactions.LostStart | p4d/p4d.py:608-611 | after a lost START a statement goes out in no bracket |
| Transactions.SentInside | p4d/p4d.py:236-238 | a statement that succeeds was sent last, inside a bracket |
| Transactions.OnlyAsked | p4d/p4d.py:614-670 | COMMIT and ROLLBACK go out only where asked for; a with block left by an exception is not committed |
| Transactions.ExecuteSends | p4d/p4d.py:236-260 | exactly what an execute sends, START TRANSACTION first when none is open, and that it raises unless both end well |
| Transactions.FinishSends | p4d/p4d.py:637-648 | commit and rollback send their word, raise unless it ends well, and only then leave the transaction |
| Transactions.CloseSends | p4d/p4d.py:614-634 | close rolls back first, and stays connected exactly when that fails |
| Transactions.ClosedSilent | p4d/p4d.py:186-187 | nothing goes out on a closed connection, whatever is done; what raises is an execute, or anything while the transaction's flag is set |
| Transactions.SelectIff | p4d/p4d.py:192 | the read-only test holds exactly of white space, the six letters of SELECT in any case, and anything more |
| Transactions.ReadOnlyExecute | p4d/p4d.py:192-193 | a read-only connection sends such a statement alone, and refuses any other with nothing sent |
| Transactions.ReadOnlyFinish | p4d/p4d.py:192-193 | nor does it send a COMMIT or ROLLBACK, even with the transaction flag set |
| Transactions.ReadOnlyRun | p4d/p4d.py:192-193 | a read-only connection opens no transaction and sends nothing but SELECTs |
| Transactions.SelectStays | p4d/p4d.py:192-234 | breaking out lists leaves a SELECT a SELECT |
| Transactions.Cursor.Execute | p4d/p4d.py:181-238 | the re-entrant execute is the pure action |
| Transactions.Connection.Finish | p4d/p4d.py:637-648 | commit and rollback are the pure action |
| Transactions.Connection.Close | p4d/p4d.py:614-634 | close is the pure action, with the flag left as it was |
| Transactions.Connection.Exit | p4d/p4d.py:662-670 | leaving a with block is the pure action |

## Left out

- Connecting, sockets, time-outs and `select`: foreign I/O; `recv` and `send` are nondeterministic methods of `Stream.Socket`.
- `lib4d_sql/sqlstate.c`: a table of constants.
- The regular-expression substitutions of `execute` and DSN parsing: library calls. They run before the part modelled in `Transactions`, which starts from the query they leave.
- Turning values into Python objects (UTF-16, dates, durations, FLOAT always as None), `fourd_field_to_string` and `strstrip`.
- Login, logout, quit and setting the preferred image types. `Client.ExecuteStatement` takes its message as bytes, of which `Requests` and `Messages` treat the forms. Executing without a result object, and PREPARE-STATEMENT, whose outcome the driver ignores.
- ResultArena.Arena.Alloc: never returns NULL; a failed `malloc` is modelled in `Ownership` only, elsewhere allocations succeed.
- What C does once a walk has left its table: `Ownership` stops there.
- Header values longer than the buffer they are read into, type names and column names longer than 254 bytes: C writes past the end. On arbitrary streams `HeaderReader.ReadField` gives the buffer the room, and columns have no fixed size.
- Error texts; the codes are modelled.
- The refusal of multi-queries in front of an execute (code -5001, nothing sent) is in `MultiQuery`, not in `Session`; `executemany` is a loop of executes and closes.
- Error replies without an Error-Code leave the C code reading an uninitialised buffer: the model takes code 0.
- Numbers outside 32 bits in headers, undefined for `atoi`: the model keeps the low 32 bits.
- A CLOSE-STATEMENT whose request cannot be sent reads on from what is buffered: `Session.Perform` leaves the outcome open.
- Sharing of the column array is a value copied back when a page reply names no new count (`Pager.ShareColumns`); `Ownership` has the pointer itself.
- Fixed-size structures are values in `Driver.Element`; their blocks are allocated, their variable parts are real blocks read back through the chunk.
- Elements a bind leaves out of order are unspecified in C; `Params.Statement.BindParam` fills them with empty ones and promises nothing about them.
- Unicode white space and case mapping in the read-only check: ASCII only.
- Windows branches.
