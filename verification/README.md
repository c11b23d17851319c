# Verification of the database module

A Dafny model of the native side of the database module, with proofs. It covers:

- **Filling a cursor window** (`CursorWindow.dfy`, `WindowFilling.dfy`, `WindowProperties.dfy`, `PackedResult.dfy`).
  The loop that copies the rows of a statement into a window of bounded size, with its restarts, its optional counting
  and its packed result, is proved against greedy packing. The window is a class with the operations the Java object
  has; which contents it has room for is any predicate `fits` such that less always fits when more does. Space of an
  abandoned row need not be reclaimed: after one, the window may refuse anything until it is cleared.
- **The byte-serialized trie** (the files named `Trie...`). `Encodes` is the node format as a relation between bytes and
  nodes. It fixes no order of nodes and allows them to be shared. A writer produces it, a reader class consumes it,
  `TrieBuilder` makes the nodes from a map, and the whole way is proved correct for every map and every input.
  `TrieLayout` reads bytes as the layout comment describes them, with its numbers and without nodes; `TrieDocumented`
  proves that the codec and the node format are that layout.
- **The "localized" collation** (`Collation.dfy`), over every memcmp that meets the C standard, and its meaning for
  texts stored as UTF-8.
- **State machines over whole runs**: connections, statements and custom functions (`Lifecycle.dfy`), cancellation
  (`Cancellation.dfy`), loading the ICU libraries (`IcuCompat.dfy`), and the EnumSet bitset (`EnumSet.dfy`).

## Where code and documentation differ

- The comment on filling a window says that the required row *must* be copied. It is not when a row between the start
  and it fits no empty window, or when it lies before the start: `RequiredRowIsInWindow` gives the exact condition,
  `RequiredRowIsInWindowIff` the same for every capacity, and `OversizeRowLosesRequiredRow` a concrete case.
- It also says that, without counting, the count is one greater than the index of the last row copied. When no row is
  copied there is no such row: the count is then the start, or the number of rows if that is less.
  `CountWithoutLastCopied` gives two inputs; `CountIsAfterLastCopied` says exactly when the documentation holds: when
  there is a row at the start and no row from there to the required one is too large for an empty window.
  `CountIsAfterLastCopiedIff` is the same for every capacity.
- `bytestrie.h:184-188` describes `next(string)` as a loop that returns "no match" after a final value without leaving
  the state, while `ustringtrie.h:36-38` says that after "no match" nothing matches; the model stops the reader there.

## What is assumed

- The statement: rows, then SQLITE_DONE or an error; reset rewinds it and reports the last step's error
  (`sqlite3.h:4391-4407`).
- The Java window: clear empties it; allocRow appends a row of NULL cells; a put writes one cell of an existing row or
  changes nothing; freeLastRow removes the last row; setNumColumns succeeds or not, for reasons of its own, each time it
  is called. The Java class is not part of this model.
- SQLite: close refuses while statements are outstanding (`sqlite3.h:295-297`); a function's destructor runs when it is
  overloaded or its connection closes; the progress handler is called only while it is installed.
- Cancellation: the resets of one connection do not overlap one another; cancels and callbacks may come at any time.
- The bodies of the trie's `readValue`, `jumpByDelta`, `nextImpl`, `branchNext`, `findUniqueValue` and of the builder
  are not in the repository. They are written from the layout comment and the declarations in `bytestrie.h`; lengths
  and thresholds are tied to the inline bodies there (`skipValue`, `skipDelta`, the constants).

## Model

| member | source | states |
|---|---|---|
| `CursorWindows.CopyRowToWindow` | module-sqlite/src/main/cpp/sqlite/android_database_SQLiteConnection.cpp:668-726 | Succeeds exactly when the window has room for the whole row; then the row is appended, equal cell by cell in type and value; otherwise the rows are as before, wherever the failure came |
| `CursorWindows.SetWindowNumColumns` | module-sqlite/src/main/cpp/sqlite/android_database_SQLiteConnection.cpp:728-739 | The window is empty afterwards whatever happens; the column count changes only on success, and it succeeds exactly when the window accepts the columns this time |
| `WindowFilling.CopyOrRestart` | module-sqlite/src/main/cpp/sqlite/android_database_SQLiteConnection.cpp:819-840 | One iteration: the row is copied; or it did not fit and the window restarts with it as first row, only while the required row has not been copied; or copying is over, at exactly this row; or, when restarting and only then, the window refuses its columns |
| `WindowFilling.ExecuteForCursorWindow` | module-sqlite/src/main/cpp/sqlite/android_database_SQLiteConnection.cpp:767-855 | For every result, capacity, start, required row and flag: it is given up, with an empty window and a result of 0, if and only if the window refuses its columns at the beginning or at one of its `Restarts`; otherwise the window holds exactly the rows start..end of greedy packing (`Fill`, which knows nothing of `countAllRows`); it throws, with a result of 0, if and only if the statement ends in an error and stepping gets there, because all rows are counted or none was too many; else the word, computed with a shift and an or of bit patterns, is start * 2^32 plus the number of all rows if stepping got to the end, or else of the rows up to the one that did not fit; on every way out the statement is rewound |
| `WindowProperties.BlockIsLongest` | module-sqlite/src/main/cpp/sqlite/android_database_SQLiteConnection.cpp:819-833 | Each block is the longest run that fits: a run of rows from its first row fits if and only if it ends within the block |
| `WindowProperties.FilledWithRequiredBlock` | module-sqlite/src/main/cpp/sqlite/android_database_SQLiteConnection.cpp:815-843 | If the rows from the start to the required one each fit alone, the window is exactly the block of the greedy packing that holds the required row, or the last block when the rows end first |
| `WindowProperties.RequiredRowIsInWindow` | module-sqlite/src/main/cpp/sqlite/android_database_SQLiteConnection.cpp:752-756 | If contents that fit still fit without their first row: the required row, if it exists, is in the window if and only if it is not before the start and no row from the start up to it is too large for an empty window |
| `WindowProperties.RequiredRowIsInWindowIff` | module-sqlite/src/main/cpp/sqlite/android_database_SQLiteConnection.cpp:752-756 | For every capacity: the required row, if it exists, is in the window if and only if it is not before the start and every block that packing begins at or before it has a first row that fits alone |
| `WindowProperties.BlocksBeginIffFitAlone` | module-sqlite/src/main/cpp/sqlite/android_database_SQLiteConnection.cpp:815-843 | The two conditions agree for capacities that are closed under dropping a row at either end |
| `WindowProperties.PackedBlock` | module-sqlite/src/main/cpp/sqlite/android_database_SQLiteConnection.cpp:815-843 | With no premise on the rows, what is kept is one block of the packing: it reaches past the required row or to the end of the rows, or is empty because its first row is too large |
| `WindowProperties.PackingReaches` | module-sqlite/src/main/cpp/sqlite/android_database_SQLiteConnection.cpp:822-838 | Filling goes through every block begun at or before the required row, up to the first one whose first row is too large, where it stops with an empty window |
| `WindowProperties.OversizeRowLosesRequiredRow` | module-sqlite/src/main/cpp/sqlite/android_database_SQLiteConnection.cpp:825-838 | A concrete result whose required row exists and fits, but is not delivered, because the row before it never fits |
| `WindowProperties.SizeUpToIsClosed` | module-sqlite/src/main/cpp/sqlite/android_database_SQLiteConnection.cpp:754-756 | Capacity by total size, which that counterexample uses, is a legitimate one: whatever fits still fits with less in it |
| `WindowProperties.RequiredRowIsNotEvicted` | module-sqlite/src/main/cpp/sqlite/android_database_SQLiteConnection.cpp:822-832 | From the moment the required row is in the window, the start is final and the rows already copied stay |
| `WindowProperties.StartNeverPassesRequired` | module-sqlite/src/main/cpp/sqlite/android_database_SQLiteConnection.cpp:816-831 | The start only moves forward from the requested one, and when it moves it never passes the required row |
| `WindowProperties.RestartsAreBounded` | module-sqlite/src/main/cpp/sqlite/android_database_SQLiteConnection.cpp:822-832 | Restarts are at most one more than the rows by which the start has moved, and there are none when the start is after the required row |
| `WindowProperties.RestartsAreBlocks` | module-sqlite/src/main/cpp/sqlite/android_database_SQLiteConnection.cpp:822-838 | The window is begun again once for each block after the first, up to the one kept, and once in vain if the first row is already too large and not after the required one |
| `WindowProperties.CutsSkipRows` | module-sqlite/src/main/cpp/sqlite/android_database_SQLiteConnection.cpp:822-832 | No block begins inside another one |
| `WindowProperties.ReturnedWord` | module-sqlite/src/main/cpp/sqlite/android_database_SQLiteConnection.cpp:758-765 | With and without counting all rows the start is the same; the counted word holds the total; from the other one the window's length is max(0, count - start); the counts agree if and only if the window did not fill up |
| `WindowProperties.WindowIsEmptyIff` | module-sqlite/src/main/cpp/sqlite/android_database_SQLiteConnection.cpp:815-843 | For every capacity: no row is copied if and only if the start is beyond the rows or packing begins a block, at or before the required row or at the start, whose first row is too large |
| `WindowProperties.CountIsAfterLastCopiedIff` | module-sqlite/src/main/cpp/sqlite/android_database_SQLiteConnection.cpp:758-765 | For every capacity, without counting all rows: the count is one greater than the index of the last row copied if and only if there is a row at the start and every block that packing begins up to the required row has a first row that fits alone; it is less than the start if and only if the start is beyond the end of the rows, and equal to it in the other cases without a row |
| `WindowProperties.CountIsAfterLastCopied` | module-sqlite/src/main/cpp/sqlite/android_database_SQLiteConnection.cpp:758-765 | If contents that fit still fit without their first row: the count is one greater than the index of the last row copied if and only if there is a row at the start and no row from there to the required one is too large for an empty window |
| `WindowProperties.CountWithoutLastCopied` | module-sqlite/src/main/cpp/sqlite/android_database_SQLiteConnection.cpp:758-765 | Two concrete inputs on which no row is copied, so that the count is not one greater than the index of the last one: start 5 and count 0, start 1 and count 1 |
| `PackedResult.Unpack` | module-sqlite/src/main/cpp/sqlite/android_database_SQLiteConnection.cpp:853-854 | The number `Pack` fits a jlong, and both integers are read back from it |
| `PackedResult.ShiftOrIsSum` | module-sqlite/src/main/cpp/sqlite/android_database_SQLiteConnection.cpp:853 | On 64-bit patterns, the bitwise or is a sum of the shifted start and a non-negative count |
| `PackedResult.HalvesOfBits` | module-sqlite/src/main/cpp/sqlite/android_database_SQLiteConnection.cpp:853 | On 64-bit patterns of non-negative integers: the word is not negative, and its upper and lower halves are the start and the count |
| `PackedResult.WordIsPack` | module-sqlite/src/main/cpp/sqlite/android_database_SQLiteConnection.cpp:853 | For all non-negative integers, the word made with shift and bitwise or stands for the number `Pack`, and its halves for the two integers |
| `PackedResult.DisjointSum` | module-sqlite/src/main/cpp/sqlite/android_database_SQLiteConnection.cpp:853 | The bitwise or of patterns without a common bit stands for the sum of the two numbers |
| `PackedResult.NegativeCountHidesStart` | module-sqlite/src/main/cpp/sqlite/android_database_SQLiteConnection.cpp:853 | Sign extension of a negative count overwrites any start with -1 |
| `WindowProperties.PageThrough` | module-sqlite/src/main/cpp/sqlite/android_database_SQLiteConnection.cpp:811-854 | If every row fits alone: asking again from the end of the previous window, until the reported total is reached, terminates; if the window accepts its columns every time and the statement ends without an error it completes, and the windows concatenate to the whole result; it is refused if and only if the window refused its columns, and throws only when the statement ends in an error |
| `WindowProperties.PageUntilEmpty` | module-sqlite/src/main/cpp/sqlite/android_database_SQLiteConnection.cpp:811-854 | The same with or without counting all rows, going on until a window comes back empty |
| `Collation.CollationSign` | module-sqlite/src/main/cpp/sqlite/android_database_SQLiteConnection.cpp:137-149 | For every conforming memcmp: negative, zero, positive if and only if the first key is lexicographically less, equal, greater, a proper prefix being less |
| `Collation.CollationLaws` | module-sqlite/src/main/cpp/sqlite/sqlite3.h:5030-5038 | Symmetry of equality, transitivity of equality and of less, antisymmetry, for all byte strings |
| `Collation.LessIsTotal` | module-sqlite/src/main/cpp/sqlite/sqlite3.h:5024-5031 | Two strings are equal or one is less |
| `Collation.LessIsTransitive` | module-sqlite/src/main/cpp/sqlite/sqlite3.h:5030-5037 | The order behind the collation is transitive |
| `Collation.ByteDifferenceIsMemcmp` | module-sqlite/src/main/cpp/sqlite/android_database_SQLiteConnection.cpp:144 | The contract assumed of memcmp is met by the difference of the first two differing bytes |
| `Collation.Utf8Order` | module-sqlite/src/main/cpp/sqlite/android_database_SQLiteConnection.cpp:176 | For two scalar values the UTF-8 encodings (section 3 of RFC 3629) first differ at a byte that both have, where the smaller scalar has the smaller byte |
| `Collation.Utf8IsTable` | module-sqlite/src/main/cpp/sqlite/android_database_SQLiteConnection.cpp:176 | The encoding is that of the table in section 3 of RFC 3629: ranges of scalars, lead bytes and continuation bytes, and every bit of the scalar in its place |
| `Collation.EncodingKeepsOrder` | module-sqlite/src/main/cpp/sqlite/android_database_SQLiteConnection.cpp:176 | A lexicographically smaller text has a lexicographically smaller UTF-8 encoding |
| `Collation.CollationOrdersText` | module-sqlite/src/main/cpp/sqlite/android_database_SQLiteConnection.cpp:137-176 | On UTF-8 keys the sign of the collation is the code-point order of the texts, and zero means equal texts, as section 1 of RFC 3629 says of byte order |
| `Lifecycle.NativeLayer.NativeOpen` | module-sqlite/src/main/cpp/sqlite/android_database_SQLiteConnection.cpp:208-232 | A successful open adds one connection and nothing else |
| `Lifecycle.NativeLayer.NativeClose` | module-sqlite/src/main/cpp/sqlite/android_database_SQLiteConnection.cpp:235-250 | Throws and changes nothing if and only if statements are outstanding; otherwise the connection, its functions and their references go; NULL is ignored |
| `Lifecycle.NativeLayer.NativePrepareStatement` | module-sqlite/src/main/cpp/sqlite/android_database_SQLiteConnection.cpp:347-376 | A prepared statement belongs to its connection; an error or empty SQL leaves no statement |
| `Lifecycle.NativeLayer.NativeFinalizeStatement` | module-sqlite/src/main/cpp/sqlite/android_database_SQLiteConnection.cpp:378-388 | Removes exactly that statement; NULL is ignored |
| `Lifecycle.NativeLayer.NativeRegisterCustomFunction` | module-sqlite/src/main/cpp/sqlite/android_database_SQLiteConnection.cpp:307-330 | Adds one reference and one function, and releases the reference of the function it overloads |
| `Lifecycle.NativeLayer.DestroyFunctions` | module-sqlite/src/main/cpp/sqlite/sqlite3.h:4482-4490 | Destroying functions runs the destructor once for each: exactly their references go, and no reference is deleted that is not live |
| `Lifecycle.NativeLayer.CustomFunctionDestructor` | module-sqlite/src/main/cpp/sqlite/android_database_SQLiteConnection.cpp:299-305 | Deletes the reference of one function, which must be live |
| `Lifecycle.StepKeepsInv` | module-sqlite/src/main/cpp/sqlite/android_database_SQLiteConnection.cpp:235-388 | Every operation keeps: statements and functions belong to open connections, no two functions share a slot, and the live references are exactly those of the registered functions |
| `Lifecycle.RunKeepsInv` | module-sqlite/src/main/cpp/sqlite/android_database_SQLiteConnection.cpp:235-388 | The same after any run of operations |
| `Lifecycle.NothingLeaks` | module-sqlite/src/main/cpp/sqlite/android_database_SQLiteConnection.cpp:238-248 | After any run that closed all its connections, no statement, function or reference is left |
| `Lifecycle.ConnectionsOfRun` | module-sqlite/src/main/cpp/sqlite/android_database_SQLiteConnection.cpp:235-250 | After any run, the open connections are those opened and not closed since at a moment when all their statements were finalized |
| `Lifecycle.StatementsOfRun` | module-sqlite/src/main/cpp/sqlite/android_database_SQLiteConnection.cpp:347-388 | After any run, the statements of a connection are those it prepared that have not been finalized since |
| `Lifecycle.FunctionsOfRun` | module-sqlite/src/main/cpp/sqlite/android_database_SQLiteConnection.cpp:307-330 | After any run, a slot is answered by the function of its latest registration, with the reference made for that one, unless its connection has been closed since |
| `Lifecycle.ReferencesOfRun` | module-sqlite/src/main/cpp/sqlite/android_database_SQLiteConnection.cpp:299-330 | After any run, a global reference is live if and only if some function that answers calls holds it |
| `Cancellation.StateOfTrace` | module-sqlite/src/main/cpp/sqlite/android_database_SQLiteConnection.cpp:866-882 | In every interleaving of cancels and callbacks with the two halves of resets, which do not overlap one another: the flag says whether there was a cancel after the latest clear; the handler whether the latest reset to have set it was cancelable, which is the latest reset of all except between its halves |
| `Cancellation.HandlerInterrupts` | module-sqlite/src/main/cpp/sqlite/android_database_SQLiteConnection.cpp:120-124 | The handler is called only if the latest reset to have set it was cancelable, and interrupts if and only if a cancel came after the latest clear, also between the two halves of a reset |
| `Cancellation.SQLiteConnection.NativeCancel` | module-sqlite/src/main/cpp/sqlite/android_database_SQLiteConnection.cpp:866-869 | One more cancel in the history; the flag agrees with it |
| `Cancellation.SQLiteConnection.NativeResetCancel` | module-sqlite/src/main/cpp/sqlite/android_database_SQLiteConnection.cpp:871-882 | A clear, any cancels and callbacks that come between the two halves, then the handler; the flag is set afterwards if and only if there were such cancels |
| `Cancellation.SQLiteConnection.ClearFlag` | module-sqlite/src/main/cpp/sqlite/android_database_SQLiteConnection.cpp:874 | The first half: the clear, from where cancels count |
| `Cancellation.SQLiteConnection.SetHandler` | module-sqlite/src/main/cpp/sqlite/android_database_SQLiteConnection.cpp:876-881 | The second half: the handler that the reset asked for, leaving the flag as it is |
| `Cancellation.SQLiteConnection.ProgressHandlerCallback` | module-sqlite/src/main/cpp/sqlite/android_database_SQLiteConnection.cpp:121-124 | Whatever the history, interrupts if and only if a cancel is pending in it |
| `IcuCompat.FindIcuSuffix` | module-sqlite/src/main/cpp/icu_compat/icucompat.c:62-96 | `_xy` for the first regular file named icudtxyl.dat, x and y digits, such that u_getVersion_xy resolves; else the empty suffix if u_getVersion does; none if neither, or if the directory cannot be read |
| `IcuCompat.EntryOffers` | module-sqlite/src/main/cpp/icu_compat/icucompat.c:71-83 | How the code recognizes a data file and makes a suffix of its name, compared with how such a name is put together from the suffix: the same, both ways |
| `IcuCompat.SuffixIsUnique` | module-sqlite/src/main/cpp/icu_compat/icucompat.c:62-96 | The directory and the library determine the outcome |
| `IcuCompat.NamesFit` | module-sqlite/src/main/cpp/icu_compat/icucompat.c:38-42 | Every function name fits the symbol buffer of 128 bytes with its suffix, so no symbol is cut off |
| `IcuCompat.Icu.LoadFunctions` | module-sqlite/src/main/cpp/icu_compat/icucompat.c:45-60 | Fills every slot with the look-up of its name and the one suffix in its own library |
| `IcuCompat.Icu.Init` | module-sqlite/src/main/cpp/icu_compat/icucompat.c:98-123 | Keeps the invariant of `Icu.Valid` (both handles or none; opens and closes balance; a table complete under one suffix for which u_getVersion resolves); 0 if and only if the libraries are then loaded; when they can be loaded; a second call changes nothing |
| `IcuCompat.Icu.Destroy` | module-sqlite/src/main/cpp/icu_compat/icucompat.c:125-133 | Closes what is open, once, and leaves the table as it is |
| `EnumSets.PutChangesOne` | module-sqlite/src/main/cpp/icu_compat/unicode/enumset.h:39-53 | Setting one flag gives it the new value and leaves each of the other flags |
| `EnumSets.EnumSet.constructor` | module-sqlite/src/main/cpp/icu_compat/unicode/enumset.h:32 | An empty set |
| `EnumSets.EnumSet.Clear` | module-sqlite/src/main/cpp/icu_compat/unicode/enumset.h:35 | The empty set |
| `EnumSets.EnumSet.Set` | module-sqlite/src/main/cpp/icu_compat/unicode/enumset.h:39 | Adds or removes exactly one member |
| `EnumSets.EnumSet.Add` | module-sqlite/src/main/cpp/icu_compat/unicode/enumset.h:36 | Set union with one member |
| `EnumSets.EnumSet.Remove` | module-sqlite/src/main/cpp/icu_compat/unicode/enumset.h:37 | Set difference with one member |
| `EnumSets.EnumSet.Get` | module-sqlite/src/main/cpp/icu_compat/unicode/enumset.h:40 | Membership as 0 or 1 |
| `EnumSets.EnumSet.Contains` | module-sqlite/src/main/cpp/icu_compat/unicode/enumset.h:38 | Membership as 0 or 1, like `Get` |
| `EnumSets.EnumSet.BitsAreMembers` | module-sqlite/src/main/cpp/icu_compat/unicode/enumset.h:46-53 | The bits returned as a whole, counted from the lowest, are those of the members, and no others |
| `TrieCodec.ValueRoundTrip` | module-sqlite/src/main/cpp/icu_compat/unicode/bytestrie.h:363-382 | Every 32-bit value with either final bit, wherever it stands, is read back, and `SkipValue` lands right after its bytes |
| `TrieCodec.ValueIsPositional` | module-sqlite/src/main/cpp/icu_compat/unicode/bytestrie.h:470-492 | The bytes of an encoded value are its digits in base 256, highest first, the lead byte holding the final bit and above it the base of the form plus the top digits; in the longest form, a 32-bit pattern |
| `TrieCodec.ValueLengths` | module-sqlite/src/main/cpp/icu_compat/unicode/bytestrie.h:479-492 | Each form is used up to its documented maximum, and has its own range of lead bytes |
| `TrieCodec.ValueLeadsTile` | module-sqlite/src/main/cpp/icu_compat/unicode/bytestrie.h:470-475 | Every lead byte 0x20..0xff begins some value, so the forms leave no gap |
| `TrieCodec.DeltaRoundTrip` | module-sqlite/src/main/cpp/icu_compat/unicode/bytestrie.h:384-399 | Every non-negative 32-bit delta is read back: the jump lands that far after its encoding, and `SkipDelta` right after it |
| `TrieCodec.DeltaIsPositional` | module-sqlite/src/main/cpp/icu_compat/unicode/bytestrie.h:494-502 | The same for jump deltas |
| `TrieCodec.DeltaLengths` | module-sqlite/src/main/cpp/icu_compat/unicode/bytestrie.h:494-502 | The one-, two- and three-byte maxima are 0xbf, 0x2fff and 0xdffff; the forms' lead bytes do not overlap and leave no gap |
| `TrieNodes.EncodingIsUnambiguous` | module-sqlite/src/main/cpp/icu_compat/unicode/bytestrie.h:425-475 | Bytes at a position represent at most one node |
| `TrieNodes.EncodedIsWellFormed` | module-sqlite/src/main/cpp/icu_compat/unicode/bytestrie.h:425-468 | Whatever is represented keeps the documented shape: no value node after a value node, 1..16 match bytes, 2..256 ascending branch bytes |
| `TrieNodes.EncodesShifts` | module-sqlite/src/main/cpp/icu_compat/unicode/bytestriebuilder.h:168-172 | What is encoded stays encoded when more is written in front of it |
| `TrieNodes.FindEdgeSplits` | module-sqlite/src/main/cpp/icu_compat/unicode/bytestrie.h:449-455 | Comparing with the middle byte finds the half that holds the edge |
| `TrieNodes.NoStepOutside` | module-sqlite/src/main/cpp/icu_compat/unicode/bytestrie.h:158-159 | Inputs outside 0..0xff match nothing, from any node |
| `TrieDocumented.ValueIsDocumented` | module-sqlite/src/main/cpp/icu_compat/unicode/bytestrie.h:363-382 | Any bytes of a value, in the shortest form or not: what is read, where it ends and whether it is final, are what the layout says |
| `TrieDocumented.DeltaIsDocumented` | module-sqlite/src/main/cpp/icu_compat/unicode/bytestrie.h:384-399 | The same for deltas and the jumps they make |
| `TrieDocumented.EncodesAsDocumented` | module-sqlite/src/main/cpp/icu_compat/unicode/bytestrie.h:427-475 | Each kind of node is represented by exactly the bytes that the layout gives it, both ways, with its lead bytes and lengths as numbers |
| `TrieDocumented.EncodesBranchAsDocumented` | module-sqlite/src/main/cpp/icu_compat/unicode/bytestrie.h:440-455 | A branch sub-node of up to five edges is a list, a longer one a key to compare with, a delta to the lesser half and the other half; both ways |
| `TrieDocumented.EncodesListAsDocumented` | module-sqlite/src/main/cpp/icu_compat/unicode/bytestrie.h:443-448 | A list is a key and a final value or jump for each edge but the last, which continues after its key; both ways |
| `TrieDocumented.FollowIsStep` | module-sqlite/src/main/cpp/icu_compat/unicode/bytestrie.h:425-475 | Following a byte as the layout says, from a node or inside a linear match, leads to where the step in the nodes leads |
| `TrieWriter.WriteEncodes` | module-sqlite/src/main/cpp/icu_compat/unicode/bytestrie.h:425-475 | Serializing a node in front of anything already written produces the documented format, through jumps, linear matches and branches split by halves |
| `TrieWriter.WriteBranchEncodes` | module-sqlite/src/main/cpp/icu_compat/unicode/bytestrie.h:449-455 | Split branches: the less-than half has length/2 edges and is reached by the delta, the other follows |
| `TrieWriter.FirstKeyWritten` | module-sqlite/src/main/cpp/icu_compat/unicode/bytestrie.h:443-464 | The first key of a written branch is that of the first edge if there are at most five, and else of the middle one |
| `TrieWriter.WriteEntriesEncodes` | module-sqlite/src/main/cpp/icu_compat/unicode/bytestrie.h:443-448 | List entries: a final value in place or the exact distance to the node, and one last byte that continues |
| `TrieBuilder.BuildIsWellFormed` | module-sqlite/src/main/cpp/icu_compat/unicode/bytestriebuilder.h:132-136 | The nodes built from any map have the shape the format requires |
| `TrieBuilder.StepIsStrip` | module-sqlite/src/main/cpp/icu_compat/unicode/bytestrie.h:171-178 | Consuming a byte in the built trie gives the trie of the remaining map |
| `TrieBuilder.BuiltTrieMatchesMap` | module-sqlite/src/main/cpp/icu_compat/unicode/bytestrie.h:147-178 | For every map and every input: value, value that can go on, prefix only or no match, exactly as the map's keys say, with the map's value |
| `TrieReader.BytesTrie.constructor` | module-sqlite/src/main/cpp/icu_compat/unicode/bytestrie.h:64-66 | A new reader is at the root |
| `TrieReader.BytesTrie.Reset` | module-sqlite/src/main/cpp/icu_compat/unicode/bytestrie.h:89-93 | Back at the root |
| `TrieReader.BytesTrie.SaveState` | module-sqlite/src/main/cpp/icu_compat/unicode/bytestrie.h:122-127 | The state holds what is left to match, for the same bytes |
| `TrieReader.BytesTrie.ResetToState` | module-sqlite/src/main/cpp/icu_compat/unicode/bytestrie.h:129-145 | Restores a state saved for the same bytes; any other state changes nothing |
| `TrieReader.BytesTrie.Current` | module-sqlite/src/main/cpp/icu_compat/unicode/bytestrie.h:147-153 | The result for the bytes so far |
| `TrieReader.BytesTrie.First` | module-sqlite/src/main/cpp/icu_compat/unicode/bytestrie.h:155-169 | One byte from the root: inputs 0..0xff as they are, -0x100..-1 like 0..0xff, and no match for all others |
| `TrieReader.BytesTrie.Next` | module-sqlite/src/main/cpp/icu_compat/unicode/bytestrie.h:171-178 | One byte from any state, also inside a pending linear match: inputs 0..0xff as they are, -0x100..-1 like 0..0xff, no match for all others; after a mismatch nothing matches any more |
| `TrieReader.BytesTrie.NextImpl` | module-sqlite/src/main/cpp/icu_compat/unicode/bytestrie.h:408-409 | One byte from a node, skipping an intermediate value |
| `TrieReader.BytesTrie.BranchNext` | module-sqlite/src/main/cpp/icu_compat/unicode/bytestrie.h:405-406 | The halving search and the list search arrive at the edge of the input byte, if there is one |
| `TrieReader.BytesTrie.NextString` | module-sqlite/src/main/cpp/icu_compat/unicode/bytestrie.h:180-195 | A whole string, the same as byte by byte, whether its characters are signed or unsigned |
| `TrieReader.BytesTrie.GetValue` | module-sqlite/src/main/cpp/icu_compat/unicode/bytestrie.h:197-211 | The value for the bytes so far, which is what the layout reads from the value node's bytes |
| `TrieReader.BytesTrie.HasUniqueValue` | module-sqlite/src/main/cpp/icu_compat/unicode/bytestrie.h:213-226 | From any state: a value if and only if all inputs that reach a value reach that one, and two inputs reach different values otherwise |
| `TrieValues.ValuesAreReached` | module-sqlite/src/main/cpp/icu_compat/unicode/bytestrie.h:213-216 | The values collected below a node are exactly those that some input reaches |
| `TrieValues.DecidedIsReached` | module-sqlite/src/main/cpp/icu_compat/unicode/bytestrie.h:213-221 | One value or several among the collected values means one or several among the inputs |
| `TrieValues.FindUniqueValue` | module-sqlite/src/main/cpp/icu_compat/unicode/bytestrie.h:416-418 | Decides from the bytes whether all values below a node, and one already seen, are the same |
| `TrieValues.FindUniqueValueFromBranch` | module-sqlite/src/main/cpp/icu_compat/unicode/bytestrie.h:411-415 | The same for a branch, through both halves |
| `TrieReader.SerializeIsInjective` | module-sqlite/src/main/cpp/icu_compat/unicode/bytestrie.h:35-37 | Different maps have different serialized forms |
| `TrieReader.SerializedAsDocumented` | module-sqlite/src/main/cpp/icu_compat/unicode/bytestrie.h:425-475 | The serialized form of any map, read by the layout alone: a string matches if and only if some key begins with it, has a value if and only if it is a key, and then the map's, and can go on if and only if some longer key begins with it |
| `TrieReader.LookUp` | module-sqlite/src/main/cpp/icu_compat/unicode/bytestrie.h:50-64 | Build, serialize and read: any string looked up, of signed or unsigned characters, has a value if and only if it is a key, and then the map's; and can go on if and only if some longer key begins with it |

## Left out

- `WindowFilling.ExecuteForCursorWindow`: does not model a negative start or more than 2^31 - 1 rows, because the index arithmetic is not meant for them; nor the exit through a missing Java method (lines 798-808), which is a foreign call.
- `WindowProperties.FilledWithRequiredBlock`: a start beyond the last row is left to `Fill`, which says that the window is empty then.
- `EnumSets.EnumSet.Set`: members outside the range are excluded, because the class does not check them and shifting by such amounts is undefined.
- `TrieReader.LookUp`: does not cover an empty map or trie data of 2^31 bytes or more, which 32-bit distances cannot describe.
- `Lifecycle.NativeLayer.NativeOpen`: only a successful open; the failing paths leave the handle open.
- `Lifecycle.NativeLayer.NativeRegisterCustomFunction`: only a successful registration; the failing path deletes a reference the destructor was already given.
- Locating the Java methods of the window by name, and the local references made for strings and blobs.
- The contents of a floating-point cell beyond its bit pattern, which is only copied.
- Preparing and finalizing do not model SQL or its errors, only which statements exist.
- Function names in the lifecycle model are taken as already folded to one case.
- `BytesTrie::getNextBytes` and `BytesTrie::Iterator`, whose bodies are not in the repository.
- Sharing of equal sub-tries by the builder: the format and the reader allow it, the writer modelled here does not do it.
- The ICU function table after unloading: it keeps stale entries and nothing is claimed of them.
- The switch from error codes to exceptions, logging, tracing and class registration: flat tables and foreign calls.
- SQLite's own internals and the other ICU headers.
