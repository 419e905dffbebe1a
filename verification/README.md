# Verification of tcl-dbi

Models and proofs, in Dafny 4.11, of the algorithmic parts of the tcl-dbi database
extensions.  `dafny verify dfyconfig.toml` checks everything.

- **Binary codec** (`BinaryCodec.dfy`): the encoder picks the offset with the fewest
  escapes, subtracts it from every byte and escapes three byte values; the decoder may
  overwrite its own input.  Proved: round trips both ways, the choice is the smallest best
  offset, the documented output size suffices (a pigeonhole argument over the 254 offsets).
- **Collations** (`Collation.dfy`, `CollationOrder.dfy`, `CollationKeys.dfy`,
  `CollationNumbers.dfy`, `CollationTexts.dfy`): DICT and DICTREAL.  The two-cursor loops are proved against a
  comparison token by token; for all texts that gives antisymmetry and equality only of
  identical texts, and exact conditions for staying inside the texts and for transitivity.
  Embedded numbers are related to their integer and real values, letters to the alphabet.
- **Placeholders** (`Placeholders.dfy`, `ParameterInsertion.dfy`, `PlaceholderRescan.dfy`):
  the scanner is proved against a character automaton, the splicing into a reallocated
  buffer against a plain splice (every write inside the current buffer), and rescanning the
  result finds no placeholder for exactly characterised arguments.
- **Firebird transactions** (`TransactionSharing.dfy`, `FirebirdConnection.dfy`): a parent
  and its clones share one transaction.  The objects are proved against value-level steps;
  over every run in autocommit mode each open cursor and blob belongs to the live transaction.
- **Firebird blobs** (`BlobStream.dfy`): the buffered writer and the segment readers.
- **SQLite3** (`IncrblobChannels.dfy`, `FileImport.dfy`, `FetchPosition.dfy`): the list of
  incremental blob channels, the file import and forward-only fetching.

## How the code is modelled

C buffers that are written are arrays; strings that are only read are sequences, and the
terminator is position `|s|`.  Fields of connection objects are fields of classes.  Calls
into `isc_*`, `sqlite3_*`, libc and Tcl are small methods with the behaviour the code relies
on: a full commit or a rollback clears the transaction handle, a retaining commit keeps it,
a started transaction gets a new number; `isc_get_segment` reads from one segment and
reports whether some of it is left; `sqlite3_step` returns the rows in order and then its
end, and called again after that runs the statement again; an `INSERT` that fails adds
nothing.  Allocation does not fail and `int` does not overflow.  Bytes and collation
characters are integers in the range of the C types; `char` is signed, as with gcc on x86.

Where code and documentation differ the model follows the code:

- `sqlite/generic/encode.c:44-72` describes adding the offset; line 142 subtracts it.
- `docs/dbi_sqlite3.html:134-137` says that DICT treats numbers as integers and DICTREAL as
  reals.  Both do so for numbers that are not all zeros, except that DICTREAL puts a number
  with a point before one without when their integer parts are equal.  Of a number, or an
  integer part, that is all zeros every zero is skipped, and the next character stands in for
  a digit: DICT sorts `a1b` before `a0b`, and DICTREAL sorts `1.5` before `0.5`.  Exactly
  which pairs come out right is `CollationNumbers.DictAgrees` and
  `CollationNumbers.DictrealAgrees`: zeros are less than another number iff fewer digits
  follow the stand-in than follow the other's first digit, or equally many and the stand-in
  is a smaller character; so `0.5` is less than `10.5` but not less than `1.5`.

Properties that hold only under a condition have it stated exactly:

- DICT and DICTREAL overrun a terminator on a self-comparison iff zeros are skipped to the
  end of the text (`CollationOrder.OverrunExactly`).
- They are transitive over a set of characters iff the set has no clash
  (`CollationKeys.TransitiveExactly`).
- They order numbers by value iff `CollationNumbers.DictAgreesExactly` and
  `CollationNumbers.DictrealAgreesExactly` say so.
- The scan goes on as in plain code after a block comment, or after a slash in plain code,
  iff the next character is none of `?`, `/`, `*` and the two quotes
  (`Placeholders.PlainAfterComment`, `Placeholders.PlainAfterSlash`).
- An argument can be inserted into every command, beside others that are harmless, without
  adding a placeholder iff its parameter alone scans from plain code to plain code without one
  (`PlaceholderRescan.HarmlessExactly`).
- An inserted literal is not left early iff each backslash in its argument comes before a
  character other than a quote (`PlaceholderRescan.StaysInsideExactly`).
- Every fetched line is a row of the result iff the result has rows
  (`FetchPosition.FetchedLinesExistExactly`).
- Skipping or getting bytes of a blob fails iff more than a buffer of them is wanted from a
  longer segment (`BlobStream.StuckExactly`).
- `begin`, `commit` and `rollback` leave only live cursors and blobs iff nothing else is open
  (`TransactionSharing.BeginKeepsAliveExactly`, `EndKeepsAliveExactly`).

## Model

| member | source | states |
|---|---|---|
| BinaryCodec.EncodeBinary | sqlite/generic/encode.c:118-158 | the terminated output is the encoding with the smallest best offset, never past the documented buffer size, and nothing after the terminator is changed |
| BinaryCodec.ChooseOffset | sqlite/generic/encode.c:126-138 | the histogram search with its early exit finds the smallest of the allowed offsets with the fewest escapes, and always finds one |
| BinaryCodec.CountBytes | sqlite/generic/encode.c:126-127 | the histogram holds the multiplicity of each byte value |
| BinaryCodec.WriteBody | sqlite/generic/encode.c:140-155 | the writing loop appends exactly the escaped bytes and changes nothing else |
| BinaryCodec.WriteEscaped | sqlite/generic/encode.c:143-154 | one byte is written in its one-byte or two-byte form |
| BinaryCodec.DecodeBinary | sqlite/generic/encode.c:170-190 | the decoded bytes, or -1 for a malformed text, whether or not the output overwrites the input |
| BinaryCodec.InPlaceFits | sqlite/generic/encode.c:160-169 | decoding never needs more room than the buffer it decodes |
| BinaryCodec.EncodingDecodes | sqlite/generic/encode.c:102-106 | decoding an encoding gives back every byte sequence; encodings contain neither zero bytes nor quotes |
| BinaryCodec.DecodedEncodesBack | sqlite/generic/encode.c:75-85 | a well-formed text without zero bytes and quotes is exactly the encoding, with its offset, of what it decodes to |
| BinaryCodec.EncodingSize | sqlite/generic/encode.c:109-113 | text and terminator fit in (256n+1262)/253 bytes, the length is 1 + n + escapes, and no other offset gives a shorter text |
| BinaryCodec.OffsetExactly | sqlite/generic/encode.c:126-140 | the first byte is the offset, neither 0 nor a quote; no other offset gives a shorter text and no smaller one an equally short text |
| BinaryCodec.EmptyEncoding | sqlite/generic/encode.c:121-125 | an empty input is written as the single byte 0x78 |
| BinaryCodec.CodeOfByte | sqlite/generic/encode.c:143-154 | a byte c above the offset is written as c, as 1 1 for c = 0, as 1 2 for c = 1, as 1 3 for c = 0x27 |
| BinaryCodec.BodyConcat | sqlite/generic/encode.c:140-155 | bytes are encoded one after the other |
| BinaryCodec.DecodesSingle | sqlite/generic/encode.c:170-190 | outside pairs a code stands for the byte that far above the offset, modulo 256 |
| BinaryCodec.DecodesPair | sqlite/generic/encode.c:173-185 | the pairs stand for 0, 1 and 0x27 above the offset; a 1 before any other byte makes the text malformed |
| BinaryCodec.BodyLength | sqlite/generic/encode.c:139-157 | each escape costs exactly one byte |
| BinaryCodec.EncodingUnique | sqlite/generic/encode.c:126-157 | there is only one encoding of an input |
| BinaryCodec.Pigeonhole | sqlite/generic/encode.c:127-138 | if every allowed offset needs m escapes then 254m is at most 3n |
| BinaryCodec.OffsetChosen | sqlite/generic/encode.c:126-138 | with input, some allowed offset needs fewer escapes than there are bytes |
| BinaryCodec.EscapesFromHistogram | sqlite/generic/encode.c:132 | three histogram entries add up to the escapes of an offset |
| BinaryCodec.EncoderCheck | sqlite/generic/encode.c:200-243 | encoding and decoding in place gives the original count and bytes, in an output buffer of the documented size |
| Collation.CollateDictionary | sqlite3/generic/sqlite.c:126-215 | the cursor loops return exactly what comparing token by token gives, or overrun where the C code reads past a terminator |
| Collation.CollateDictreal | sqlite3/generic/sqlite.c:217-348 | the same for DICTREAL, with fractions |
| Collation.SkipLeadingZeros | sqlite3/generic/sqlite.c:141-149 | both cursors stand after their zeros, and the count is how many more the left number has |
| Collation.CompareRuns | sqlite3/generic/sqlite.c:158-181 | the digit loop returns the difference of length, else the first differing digit |
| Collation.CompareRealRuns | sqlite3/generic/sqlite.c:249-314 | the digit loop with points: length, first differing digit, presence of a point, fractions |
| Collation.CompareFractions | sqlite3/generic/sqlite.c:269-288 | the first differing decimal, else the longer fraction is greater |
| CollationOrder.OverrunExactly | sqlite3/generic/sqlite.c:141-165 | a text can be compared with itself and all texts that tokenise without overrun iff it tokenises |
| CollationOrder.LoneZeroOverruns | sqlite3/generic/sqlite.c:141-165 | the text 0 compared with itself overruns, in both collations |
| CollationOrder.NonzeroRunsTokenise | sqlite3/generic/sqlite.c:142-149 | it is enough that each run of digits has a digit other than 0 |
| CollationOrder.CollateSwap | sqlite3/generic/sqlite.c:126-348 | for all texts, swapping the arguments negates the result |
| CollationOrder.EqualExactly | sqlite3/generic/sqlite.c:126-348 | for all texts, the result is 0 iff they are identical and tokenise |
| CollationKeys.CompareByKeys | sqlite3/generic/sqlite.c:126-348 | the sign of the result is that of comparing primary keys, then the pending secondary difference, then secondary keys |
| CollationKeys.TransitiveExactly | sqlite3/generic/sqlite.c:184-203 | over any set of characters both collations are transitive iff no character between Z and a stands between two letters that fold the wrong way round it |
| CollationKeys.ClashBreaksTransitivity | sqlite3/generic/sqlite.c:184-203 | every such clash gives three texts that break transitivity |
| CollationKeys.TotalOrder | sqlite3/generic/sqlite.c:126-348 | of two texts that tokenise exactly one of less, identical, greater holds |
| CollationKeys.UnderscoreCycle | sqlite3/generic/sqlite.c:184-203 | Z is less than _, _ than a, and a than Z |
| CollationNumbers.DictAgreesExactly | sqlite3/generic/sqlite.c:133-183 | for all numbers without overrun, DICT's digit loop gives the order of the unbounded integer values iff both are not all zeros or what follows the zeros happens to fit; and what the comparison then returns |
| CollationNumbers.DictrealAgreesExactly | sqlite3/generic/sqlite.c:224-316 | for all numbers without overrun, with or without points, DICTREAL's loops give the order by real value and then number of decimals iff a condition on integer parts, points and what follows zeros holds |
| CollationNumbers.DictrealOutcome | sqlite3/generic/sqlite.c:224-316 | and what the whole comparison returns: the order by real value iff that condition holds, and of numbers equal in that order it goes on behind them iff it holds |
| CollationNumbers.ZerosAgainstNumber | sqlite3/generic/sqlite.c:142-182 | zeros against a number that is not all zeros, in both collations: digits after the stand-in, then the stand-in, decide |
| CollationNumbers.ZerosAgainstZeros | sqlite3/generic/sqlite.c:142-182 | zeros against zeros: digits after the stand-in, then the stand-ins, then those digits decide; and when that is the plain order of the stand-ins |
| CollationNumbers.OneBeforeZero | sqlite3/generic/sqlite.c:142-182 | a1b is less than a0b in both collations |
| CollationNumbers.OneBeforeZeroReal | sqlite3/generic/sqlite.c:234-301 | 1.5 is less than 0.5 |
| CollationNumbers.RunsByValue | sqlite3/generic/sqlite.c:159-182 | for digit runs without leading zeros, length first and then the first differing digit is the order of the unbounded integers |
| CollationNumbers.FractionsByValue | sqlite3/generic/sqlite.c:269-290 | decimals are ordered by value, and equal values by length |
| CollationNumbers.FewerDecimalsFirst | sqlite3/generic/sqlite.c:234-283 | 0.5 is less than 0.25 |
| CollationNumbers.PointSortsFirst | sqlite3/generic/sqlite.c:256-263 | 1.5 is less than 1 |
| CollationTexts.TextsByAlphabet | sqlite3/generic/sqlite.c:184-213 | for all texts without digits: the first position with different letters or other characters decides, letters by alphabet whatever their case and others by code; of texts with the same letters the first difference of case decides, capitals first |
| CollationTexts.CapitalAgainstSmall | sqlite3/generic/sqlite.c:187-202 | a capital against a small letter gives their distance in the alphabet, and -1 if it is the same letter |
| CollationTexts.NumeralsByValue | sqlite3/generic/sqlite.c:133-183 | texts that are a number with a digit other than 0 are ordered by value in both collations; of the same number the difference in leading zeros is returned |
| Placeholders.ParseStatement | mysql/generic/mysql.c:590-645 | the nested loops find exactly the question marks that the character automaton meets in plain code, in order |
| Placeholders.SkipTo | mysql/generic/mysql.c:608-632 | the inner loops pass over comments and literals without missing a placeholder |
| Placeholders.BlockCommentHides | mysql/generic/mysql.c:603-614 | a block comment hides whatever it contains, and its last slash is read as the start of another comment |
| Placeholders.PlaceholderAfterCommentIsLost | mysql/generic/mysql.c:603-614 | so a placeholder right after any block comment is not found, and all later ones are |
| Placeholders.PlainAfterComment | mysql/generic/mysql.c:603-614 | after any block comment the scan goes on as in plain code, whatever comes later, iff the next character is none of ? / * and the two quotes |
| Placeholders.DerailsAfterComment | mysql/generic/mysql.c:603-614 | for each of those characters a continuation that is scanned differently |
| Placeholders.PlainAfterSlash | mysql/generic/mysql.c:603-622 | after any slash in plain code the scan goes on as in plain code, whatever comes later, iff the next character is none of ? / * and the two quotes |
| Placeholders.PlaceholderAfterDivision | mysql/generic/mysql.c:603-634 | a placeholder right after a division sign is not found, and one inside a literal there is |
| Placeholders.PlaceholderInLiteral | mysql/generic/mysql.c:603-634 | after a comment a question mark inside a literal is taken for a placeholder |
| Placeholders.LineHides | mysql/generic/mysql.c:615-622 | a line comment hides what it contains and ends at a newline or a slash |
| Placeholders.LineCommentHides | mysql/generic/mysql.c:603-622 | from its two slashes a line comment is hidden up to the first newline or slash |
| Placeholders.BlockCommentIsSlash | mysql/generic/mysql.c:603-614 | a whole block comment is scanned like a single slash |
| Placeholders.SlashSwallows | mysql/generic/mysql.c:603-606 | a slash that begins no comment takes the next character with it, whatever it is |
| Placeholders.LiteralHides | mysql/generic/mysql.c:623-634 | a literal in single or double quotes is hidden as a whole; in its body a backslash takes the next character with it |
| Placeholders.OpenLiteralHides | mysql/generic/mysql.c:626-632 | a literal that is not closed hides the rest |
| Placeholders.OpenCommentHides | mysql/generic/mysql.c:603-622 | so does a comment that is not closed |
| Placeholders.PlainCharacter | mysql/generic/mysql.c:602-636 | any other character is passed over, and a question mark recorded |
| ParameterInsertion.InsertParam | mysql/generic/mysql.c:801-873 | the result is the splice, terminated, with its exact length, in a buffer of exactly the computed size; no write leaves the current buffer |
| ParameterInsertion.InsertQuoted | sqlite/generic/sqlite.c:601-627 | chunked copying writes the quoted argument; the buffer grows by one for each quote after the fourth |
| ParameterInsertion.InsertChunk | sqlite/generic/sqlite.c:611-624 | the text before a quote and that quote twice, in an enlarged buffer from the fifth quote on |
| ParameterInsertion.InsertParameter | sqlite/generic/sqlite.c:596-628 | NULL for the null string, else the quoted argument, within the reserve and its growth |
| ParameterInsertion.InitialSize | sqlite/generic/sqlite.c:579-587 | the first buffer reserves six more than the length, at least eight, for each argument |
| ParameterInsertion.FitsExactly | sqlite/generic/sqlite.c:579-634 | command and terminator fit without a spare byte iff there is an argument |
| ParameterInsertion.FourQuotesFill | sqlite/generic/sqlite.c:579-634 | one argument with four or more quotes fills the buffer to the last byte |
| ParameterInsertion.CopyValue | sqlite/generic/sqlite.c:768-784 | char-by-char quoting writes the same literal and returns its length |
| ParameterInsertion.CountSingleQuote | sqlite/generic/sqlite.c:756-766 | the number of quotes |
| ParameterInsertion.QuotedReadsBack | sqlite/generic/sqlite.c:768-784 | reading a literal back gives the argument; its length is length + 2 + quotes |
| ParameterInsertion.ParameterMeans | sqlite/generic/sqlite.c:596-628 | exactly the null string becomes NULL; any other argument, an empty one too, a literal that reads back as it |
| ParameterInsertion.DoubledConcat | sqlite/generic/sqlite.c:768-784 | a quote is written twice and any other character once, in order |
| ParameterInsertion.SpliceLast | mysql/generic/mysql.c:820-870 | the text behind the last placeholder is kept, the last argument replaces it, and the text before it is spliced alike |
| ParameterInsertion.OneMoreArgument | sqlite/generic/sqlite.c:579-616 | one more argument reserves its length and six, at least eight, and grows the buffer by its quotes beyond four |
| ParameterInsertion.QuotesCounted | sqlite/generic/sqlite.c:756-766 | the number of quotes is the multiplicity of the quote |
| PlaceholderRescan.RescanFindsNothing | mysql/generic/mysql.c:590-873 | if each parameter alone scans from plain code to plain code without a placeholder, scanning the spliced command finds none and ends in the mode of the original scan |
| PlaceholderRescan.HarmlessExactly | mysql/generic/mysql.c:590-873 | that holds of an argument iff every command with it and harmless arguments rescans without a placeholder |
| PlaceholderRescan.PairedHarmless | mysql/generic/mysql.c:626-631 | it holds of the null string and of arguments whose backslashes are paired, whatever else they contain |
| PlaceholderRescan.QuietUnpaired | mysql/generic/mysql.c:603-634 | and of a backslash, a quote, a slash and a quote, which leaves its literal |
| PlaceholderRescan.StaysInsideExactly | mysql/generic/mysql.c:626-631 | the scanner keeps to an inserted literal iff the backslashes of its argument are paired |
| PlaceholderRescan.NoBackslashesPaired | mysql/generic/mysql.c:626-631 | arguments without backslashes qualify |
| PlaceholderRescan.BackslashBreaksOut | mysql/generic/mysql.c:626-631 | a lone backslash as an argument turns a later question mark into a placeholder |
| PlaceholderRescan.CommandSent | mysql/generic/mysql.c:910-937 | with as many arguments as placeholders the splice is sent, else an error |
| TransactionSharing.AliveInEveryRun | firebird/generic/firebird.c:2006-2123 | after every run of execs, blob opens and closes, clones and clone closes in autocommit mode, each open cursor and blob belongs to the live transaction |
| TransactionSharing.RunSparesOthers | firebird/generic/firebird.c:1259-1288 | a member that does nothing keeps its result set and blob, and their transaction, whatever the others run |
| TransactionSharing.StepKeepsAlive | firebird/generic/firebird.c:1347-1364 | each single operation keeps that |
| TransactionSharing.BeginKeepsAliveExactly | firebird/generic/firebird.c:2714-2730 | begin keeps it iff nothing is open |
| TransactionSharing.EndKeepsAliveExactly | firebird/generic/firebird.c:2731-2762 | commit and rollback keep it iff no other cursor and no blob is open |
| TransactionSharing.ExecExactly | firebird/generic/firebird.c:2006-2123 | the whole state after a statement under autocommit: a new transaction unless others need the last one; no transaction is left exactly when the rows are not to be fetched and nobody else has a result set or anybody a blob |
| TransactionSharing.AutocommitExactly | firebird/generic/firebird.c:1347-1364 | the step before a statement goes on in a new transaction iff nobody else has an open result set and nobody an open blob |
| TransactionSharing.OpenBlobExactly | firebird/generic/firebird.c:1399-1422 | the whole state after opening a blob; the own open blob does not keep the last transaction |
| TransactionSharing.ExecWithin | firebird/generic/firebird.c:2006-2123 | without autocommit a statement starts and ends no transaction |
| TransactionSharing.ExplicitExactly | firebird/generic/firebird.c:2714-2762 | begin always starts a new transaction without autocommit; commit and rollback leave none, and autocommit on |
| FirebirdConnection.Connection.MayCommitFully | firebird/generic/firebird.c:1260-1288 | the loops allow a full commit iff no other member has an open cursor and no member has an open blob |
| FirebirdConnection.Connection.TransactionCommit | firebird/generic/firebird.c:1251-1301 | a full commit on request or when it harms nobody else, else a retaining one; no other state changes |
| FirebirdConnection.Connection.TransactionStart | firebird/generic/firebird.c:1319-1345 | a new transaction only if there is none |
| FirebirdConnection.Connection.TransactionRollback | firebird/generic/firebird.c:1303-1317 | the transaction, if any, is ended |
| FirebirdConnection.Connection.AutocommitSet | firebird/generic/firebird.c:52-62 | the one flag of the family is set, whoever sets it |
| FirebirdConnection.Connection.FreeStmt | firebird/generic/firebird.c:318-331 | the own cursor is closed and no other |
| FirebirdConnection.Connection.ProcessStatement | firebird/generic/firebird.c:1882-1900 | a query opens the own cursor in the shared transaction |
| FirebirdConnection.Connection.AutocommitStep | firebird/generic/firebird.c:1347-1364 | closes the own cursor and, with autocommit, commits and starts |
| FirebirdConnection.Connection.Exec | firebird/generic/firebird.c:2006-2123 | the transaction steps of a single successful statement |
| FirebirdConnection.Connection.OpenBlob | firebird/generic/firebird.c:1399-1422 | closes an open blob, does the autocommit step, and opens the blob in the live transaction |
| FirebirdConnection.Connection.CloseBlob | firebird/generic/firebird.c:1476-1491 | only the own blob is closed |
| FirebirdConnection.Connection.Begin | firebird/generic/firebird.c:2714-2730 | a new transaction without autocommit |
| FirebirdConnection.Connection.Commit | firebird/generic/firebird.c:2731-2746 | autocommit again, own cursor closed, transaction ended |
| FirebirdConnection.Connection.Rollback | firebird/generic/firebird.c:2747-2762 | the same by a rollback |
| FirebirdConnection.Connection.SharedState | firebird/generic/firebird.c:42-82 | all members of a family see one autocommit flag and one transaction |
| FirebirdConnection.Connection.Clone | firebird/generic/firebird.c:2871-2901 | a clone of any member is added to the root, last in its list; the family stays flat |
| FirebirdConnection.Connection.FindRoot | firebird/generic/firebird.c:2879-2880 | following the parents ends at the root |
| FirebirdConnection.Connection.LeaveFamily | firebird/generic/firebird.c:2446-2459 | the state of the family is as before without this member |
| FirebirdConnection.Connection.RemoveFromParent | firebird/generic/firebird.c:2446-2459 | the in-place shift takes out this clone and keeps the others in order |
| FirebirdConnection.Connection.Close | firebird/generic/firebird.c:2384-2462 | a closed clone is gone from the family; a closed parent has no clones and no transaction left |
| FirebirdConnection.Connection.CloseClones | firebird/generic/firebird.c:2418-2424 | closing the first clone again and again terminates with none left |
| BlobStream.BlobWriter.Put | firebird/generic/firebird.c:1523-1575 | flushed segments and buffer hold all that was put, the segments are full, and the buffer keeps room; without a created blob, data are accepted as long as they leave room in the buffer |
| BlobStream.BlobWriter.Close | firebird/generic/firebird.c:1523-1594 | the stored segments are those of cutting all the data in one go |
| BlobStream.BlobWriter.Create | firebird/generic/firebird.c:1523-1547 | an empty blob, or an error if one is still open or autocommit is on |
| BlobStream.BlobCreate | firebird/generic/firebird.c:239-267 | a blob parameter is stored in the same segments |
| BlobStream.ChunksCutEvenly | firebird/generic/firebird.c:1566-1589 | the segments hold the data, none is empty or longer than 8192 bytes, and all but the last have 8192 |
| BlobStream.BytesConcat | firebird/generic/firebird.c:1460-1472 | the bytes of a list of segments are those of its parts in order |
| BlobStream.BlobReader.Skip | firebird/generic/firebird.c:1423-1445 | drops exactly that many bytes, or all; an error iff more than a buffer of them is wanted from a longer segment |
| BlobStream.BlobReader.NextChunk | firebird/generic/firebird.c:1460-1472 | what one segment read takes from the rest of the blob, and when its status is an error |
| BlobStream.BlobReader.Get | firebird/generic/firebird.c:1446-1475 | returns exactly that many bytes, or all; an error iff more than a buffer of them is wanted from a longer segment, or everything is wanted and some segment is longer |
| BlobStream.StuckExactly | firebird/generic/firebird.c:1430-1442 | that is: iff some long segment begins at an offset more than a buffer below the size |
| BlobStream.BlobReader.BlobGet | firebird/generic/firebird.c:269-303 | all the bytes, or an error iff a segment is longer than the buffer |
| BlobStream.StreamThrough | firebird/generic/firebird.c:1423-1594 | create, any puts, close, open, skip n, get m returns bytes n to n+m of everything put, clipped at the end |
| IncrblobChannels.Database.CreateChannel | sqlite3/generic/dbi_sqlite_incrblob.c:195-240 | the new channel is first in the doubly linked list, which is exactly the open channels; nothing else of the others changes, and nothing at all if the blob cannot be opened |
| IncrblobChannels.Database.CloseChannel | sqlite3/generic/dbi_sqlite_incrblob.c:47-71 | only this channel leaves the list, which stays linked both ways and acyclic |
| IncrblobChannels.Database.Unlink | sqlite3/generic/dbi_sqlite_incrblob.c:52-61 | the three pointer updates turn a linked list into the linked list without this channel |
| IncrblobChannels.Database.CloseChannels | sqlite3/generic/dbi_sqlite_incrblob.c:29-42 | terminates with the list empty |
| IncrblobChannels.Channel.Input | sqlite3/generic/dbi_sqlite_incrblob.c:76-103 | the bytes from the seek position, clipped at the end; an error at a negative one |
| IncrblobChannels.Channel.Output | sqlite3/generic/dbi_sqlite_incrblob.c:108-136 | all of the data is written in place, or nothing and an error |
| IncrblobChannels.Channel.Seek | sqlite3/generic/dbi_sqlite_incrblob.c:141-164 | the new position relative to start, current position or end |
| IncrblobChannels.Channel.WriteSeekRead | sqlite3/generic/dbi_sqlite_incrblob.c:76-164 | what is written at a position is read back there, and the rest of the blob is unchanged |
| FileImport.GetLine | sqlite3/generic/dbi_sqlite_import.c:49-84 | the next line whatever the buffer growth, or nothing at the end of the file |
| FileImport.ReadMore | sqlite3/generic/dbi_sqlite_import.c:66-75 | one fgets and the search for its NUL extend what is loaded by the next characters of the file, not past a newline |
| FileImport.SplitInPlace | sqlite3/generic/dbi_sqlite_import.c:258-273 | the C strings left in the line are the fields, for separators of any length; too many fields are noticed exactly |
| FileImport.BindRow | sqlite3/generic/dbi_sqlite_import.c:288-297 | empty, missing and null-indicator fields become NULL, the others their text |
| FileImport.ImportLine | sqlite3/generic/dbi_sqlite_import.c:258-308 | a line becomes its row, or fails without effect when it is too long or refused |
| FileImport.Import | sqlite3/generic/dbi_sqlite_import.c:255-322 | every line becomes a row in order, or there are no such rows, the table is as before and lineno is the first line that is too long or refused |
| FileImport.ImportsJoinedRows | sqlite3/generic/dbi_sqlite_import.c:255-322 | importing a file of joined rows inserts exactly those rows, or nothing if one is refused |
| FileImport.SplitJoin | sqlite3/generic/dbi_sqlite_import.c:263-271 | splitting undoes joining with a one-character separator |
| FileImport.LastNewlineOptional | sqlite3/generic/dbi_sqlite_import.c:66-80 | a missing last newline makes no difference |
| FileImport.LinesOfText | sqlite3/generic/dbi_sqlite_import.c:66-80 | a line ends at the first newline, or at the end of the file |
| FileImport.SplitAtFirstMatch | sqlite3/generic/dbi_sqlite_import.c:263-271 | a line is cut at the first match of the separator, of any length, and then on from behind it |
| FileImport.SplitWithoutMatch | sqlite3/generic/dbi_sqlite_import.c:263-271 | a line without a match is one field |
| FileImport.InsertedExactly | sqlite3/generic/dbi_sqlite_import.c:255-308 | the import succeeds with certain rows iff they are the old ones and then one for each line with its fields, NULL for empty, missing and null-indicator ones, each accepted after those before |
| FetchPosition.Fetcher.Fetch | sqlite3/generic/sqlite.c:753-829 | the fetch follows the cursor specification; it gets exactly the line asked for, by number, as the current or as the next one, and returns the row of that line; it steps an ended statement only for a result without rows, and then once |
| FetchPosition.FetchedExactly | sqlite3/generic/sqlite.c:801-829 | in every run: a line is fetched iff it is among those that may be claimed, is not behind the cursor and the end was not reported; which error there is otherwise; and where the cursor is afterwards |
| FetchPosition.FetchedLinesExistExactly | sqlite3/generic/sqlite.c:801-829 | in every run every fetched line is a row, iff the result has rows |
| FetchPosition.RunStaysReachable | sqlite3/generic/sqlite.c:801-829 | the position never moves back, and nothing changes after the end |
| FetchPosition.NextVisitsAll | sqlite3/generic/sqlite.c:801-829 | fetching without a line number visits all lines that may be claimed in order and then fails |

## Left out

- Opening connections, option parsing, `supports`, `interface`, error texts, Tcl reference counts, hash tables and command tokens.
- `interbase/generic/interbase.c` and `postgresql/generic/postgresql.c`: near copies of code modelled here.
- The statement splitters, mysql `removequotes` and sqlite's own `ParseStatement`: their scans can step past the end of the text.
- Collation.CollateDictionary: texts with embedded zero bytes are not modelled, nor memory behind a terminator; an overrun is an outcome without a value.
- ParameterInsertion.InsertParam: embedded NULs are excluded because Tcl strings have none.
- FirebirdConnection.Connection.Exec: several statements in one command, statements that themselves start or end a transaction, and failing statements with their rollback are not modelled.
- FirebirdConnection.Connection.Close: the blob handle of a closed clone or parent, which the code leaves open, freeing of statements and descriptors, detaching from the database, and the exit handlers of destroyed objects.
- FirebirdConnection.Connection.Rollback: what becomes of the changes made in a transaction; on the connection commit and rollback leave the same state.
- FirebirdConnection.Connection.TransactionStart: the reconnection after a lost connection.
- BlobStream.BlobWriter.Create: the closing of the connection's own cursor before it.
- BlobStream.BlobReader.Skip: negative sizes, which the code truncates to unsigned short.
- BlobStream.BlobReader.GetSegment: empty segments, which neither writer stores.
- FileImport.Import: conflict algorithms other than abort, an enclosing transaction, the header option, and NULs in the file.
- FetchPosition.Fetcher.Fetch: errors of `sqlite3_step`, the field argument and the options that do not position.
- Float and scaled-number conversion, date formatting, ODBC information tables, the Tcl scripts and the build files.
