# minired, verified

minired is a small Redis clone with hand-written data structures. This project models its state and
its algorithms in Dafny and proves what they keep: a sorted set held in two indexes that never part, a
request parser and exactly where TCP fragmentation can confuse it, a snapshot format that reads back what
was written and notices damage, a hash table that stays a finite map while it is relinked in place, lazy
and swept expiry and exactly when a client can observe it, a backtracking matcher, and a doubly linked
list.

`dafny verify dfyconfig.toml` checks everything.

## How it is built

| files | what they hold |
|---|---|
| `Bytes`, `Sequences` | C strings, `strcmp`, index arithmetic, listings of maps |
| `SortedSet`, `Towers`, `SkipList` | the sorted sequence a skip list stands for; which tower follows which at a level; the linked nodes, in place |
| `Chains`, `Dict` | what a bucket array with chains says; the hash table, in place |
| `ZSetModel`, `ZSet` | the two indexes as values and when they agree; the class over `SkipList` and `Dict` |
| `Resp`, `RespLaws`, `LineLaws`, `Server` | the parser, what later bytes can change, what a line is read as, the read loop of a connection |
| `Crc`, `Codec`, `Snapshot`, `SnapshotLaws`, `SnapshotRefusals`, `Rdb`, `RdbObjects` | the checksum, fixed-width fields, the file format as functions, its laws and layout, writer, reader, save and load, the same for the linked structures |
| `Keyspace`, `Readback`, `Expiry`, `Commands`, `Objects` | commands on the keyspace, what reading answers after writing, what clients can see of expiry, handlers and sweep on the hash table, handlers on the structure under a key |
| `Glob`, `LinkedList` | `glob_match`; the doubly linked list |

Code that changes things step by step is a class or a method with loops, proved against a function of
the old state; what the functions mean is proved about them as lemmas.

Words used below. A *tower* is a skip-list node with its forward pointers; `PrevTall(nodes, p, i)` is
the last node before position `p` that reaches level `i`. An element is *stored* with the score the
node carries. A header line is *blank* when there is nothing but white space between its marker
(`*` or `$`) and its line end. A key *lingers* when its deadline has passed and nobody has looked yet.

Assumptions. The hash function is a parameter, so every theorem about the table holds for any hash.
A score is the integer that orders the double's bits, so there is no NaN and no second zero, and
printing a score with `%.17g` and reading it back gives the same score (IEEE 754-2008, section 5.12.2).
Snapshot integers are little-endian. Writing never fails. Each command is one
atomic step. The sweep thread takes no lock: its visit of the table, its look at a key (with the reading
of the deadline and of the clock) and its delete are one step each, and commands come between them. A
tower's height is any number from 1 to 32. `strtol` (C11, section 7.22.1.4) is modelled over the whole buffer, white space
across line ends included, with unbounded numbers.

Where the code and its documentation part, the model follows the code. The documentation says that a
checksum mismatch keeps the server from starting (README.md:390-391); the code keeps what was
loaded and goes on (src/main.cpp:50-51). Loading drops a key when `now > expiry`, looking one up
when `now >= expiry`. ZADD answers with the number of its pairs, not of its new members. A pattern
that ends in `**` needs one byte more than its stars mean.

## Model

| member | source | states |
|---|---|---|
| `SkipLists.SkipList.Insert` | src/skiplist.cpp:44-96 | for whatever height the coin gives, the list stays well linked at all 32 levels and its elements become those of the sorted insert: the member's old element gone, the new one in order |
| `SkipLists.SkipList.RemoveOld` | src/skiplist.cpp:59-79 | the nested delete always finds and removes the old node, may lower `level`, and afterwards every `update[i]` below the new `level` is the true level-i predecessor of the new key in the shortened list |
| `SkipLists.SkipList.LinkNew` | src/skiplist.cpp:81-95 | only entries of `update` below the old `level` need be right: the rest are overwritten with the header before they are read; the list is well linked afterwards and `level` is the tallest tower |
| `SkipLists.FillAboveTop` | src/skiplist.cpp:82-86 | when the new tower is taller, the header is the true predecessor of the key at every level from the old `level` up, and the lower entries are kept |
| `SkipLists.LinkTower` | src/skiplist.cpp:89-92 | threading the new tower level by level, in place, leaves all 32 levels linked with it, those it does not reach included |
| `SkipLists.LinkLevel` | src/skiplist.cpp:90-91 | one turn links its own level and disturbs no other, whether already done or still to come |
| `SkipLists.FillUpdate` | src/skiplist.cpp:48-56 | after the descent `update[i]` is the last node before the key that reaches level i, for every level in use, the higher entries are left alone, and the search ends at the level-0 predecessor |
| `SkipLists.Advance` | src/skiplist.cpp:49-54 | the inner loop, started anywhere before the key, stops at the last node before the key on that level |
| `SkipLists.LinkedInsert` | src/skiplist.cpp:89-92 | redirecting one predecessor per level makes the level-i chain run through exactly the nodes that reach level i, the new one included, in order |
| `SkipLists.LinkedRemove` | src/skiplist.cpp:114-117 | pointing the predecessor past the node leaves the level-i chain running through exactly the other nodes that reach level i |
| `SkipLists.ReachesLevel` | src/skiplist.cpp:114-116 | the node follows its level-i predecessor exactly when its tower reaches level i, so the early `break` of the unlinking loop skips nothing |
| `SkipLists.UnlinkTower` | src/skiplist.cpp:114-117 | after the unlinking loop all 32 levels are linked without the node, whether the loop broke off or ran to `level` |
| `SkipLists.UnlinkLevel` | src/skiplist.cpp:116-116 | one turn takes the node out of its own level and disturbs no other |
| `SkipLists.HeaderPointer` | src/skiplist.cpp:122-123 | a header pointer is null exactly when no tower reaches that level |
| `SkipLists.SkipList.Links` | src/skiplist.cpp:44-126 | in every list, at each level a node points at the next node that reaches the level, or at nothing when there is none, and the header's pointers from `level` up are null |
| `SkipLists.ShrinkLevel` | src/skiplist.cpp:122-123 | the shrinking loop stops at the height of the tallest tower, or 1 |
| `SkipLists.SkipList.Discard` | src/skiplist.cpp:114-123 | with true predecessors below `level`, unlinking, counting down and shrinking keep the whole invariant and remove exactly that element |
| `SkipLists.SkipList.Find` | src/skiplist.cpp:59-79 | walking level 0 finds the node of the member, or null exactly when there is none |
| `SkipLists.SkipList.Delete` | src/skiplist.cpp:97-126 | for any score, stored or not: true exactly when the first element at or after (score, member) carries the member, and then exactly that element is gone |
| `SkipLists.SkipList.GetScore` | src/skiplist.cpp:128-138 | the stored score of the member, or nothing |
| `SkipLists.SkipList.GetRank` | src/skiplist.cpp:141-150 | the member's position in the sorted elements, or -1 |
| `SkipLists.SkipList.RangeByRank` | src/skiplist.cpp:153-173 | exactly the slice of the sorted elements between the clamped, possibly negative indexes, cut at `max` |
| `SkipLists.SkipList.Walk` | src/skiplist.cpp:162-163 | following `start` links from the first node leads to the node at position `start` |
| `SkipLists.SkipList.Collect` | src/skiplist.cpp:165-172 | from a node on, the elements up to `end`, at most `max` of them |
| `SortedSet.InsertRefines` | src/skiplist.cpp:44-96 | inserting keeps the elements strictly ordered with unique members, maps the member to the new score and changes nothing else |
| `SortedSet.DeleteStored` | src/skiplist.cpp:97-126 | deleting with the stored score removes exactly that member |
| `SortedSet.DeleteAbsent` | src/skiplist.cpp:111-112 | deleting an absent member, under any score, returns false and changes nothing |
| `SortedSet.DeletesExactly` | src/skiplist.cpp:101-112 | a delete succeeds exactly when the member is stored with a score at or above the given one and no other element lies between; order is kept whatever the score |
| `SortedSet.RankCountsSmaller` | src/skiplist.cpp:141-150 | the rank is the number of elements strictly below in (score, member) order, and -1 exactly for absent members |
| `SortedSet.RangeGivesRanks` | src/skiplist.cpp:153-173 | the k-th element of a range has rank start + k |
| `SortedSet.RankGivesRange` | src/skiplist.cpp:141-173 | the range from a member's rank to itself is that member with its stored score |
| `Bytes.StrCmpTransitive` | src/skiplist.cpp:50-52 | `strcmp` is transitive, which the search order rests on |
| `Bytes.StrCmpMeans` | src/skiplist.cpp:50-52 | `strcmp` is negative exactly when, at the first byte in which the visible parts differ, the first string ends or has the smaller unsigned byte |
| `SortedSet.LessMeans` | src/skiplist.cpp:50-52 | the search order is the smaller score first and, among equal scores, the member that ends or has the smaller byte where the two first differ |
| `SortedSet.RangeAscends` | src/skiplist.cpp:153-173 | a range comes out by ascending score, and by ascending member bytes among equal scores |
| `Bytes.StrCmpVisible` | src/skiplist.cpp:19-21 | `strcmp` sees of a byte string only what stands before its first NUL |
| `Bytes.VisibleMeans` | src/skiplist.cpp:19-21 | the visible part is all of the bytes before the first NUL |
| `ZSets.ZSet.ZAdd` | src/zset.cpp:33-42 | both indexes change together as the two-index value says, both stay valid, and the answer is always true |
| `ZSets.ZSet.ZRem` | src/zset.cpp:44-50 | both indexes lose the member; the answer says whether the table had it |
| `ZSets.ZSet.ZScore` | src/zset.cpp:53-55 | the score of the table's map, or nothing |
| `ZSets.ZSet.ZCard` | src/zset.cpp:63-65 | the number of elements of the list |
| `ZSets.ZSet.ZRank` | src/zset.cpp:58-60 | the rank is that of the visible part of the member in the list |
| `ZSets.ZSet.ZRange` | src/zset.cpp:68-71 | a range is the slice of the list's elements |
| `ZSetModel.AddKeepsAgreement` | src/zset.cpp:33-42 | adding a NUL-free member keeps the table equal to the list's map, and the delete whose result is ignored always succeeds |
| `ZSetModel.RemKeepsAgreement` | src/zset.cpp:44-50 | removing keeps the agreement, and the ignored delete always succeeds |
| `ZSetModel.AgreementCounts` | src/zset.cpp:63-65 | while they agree, the list's length is the table's count |
| `ZSetModel.RunsAgree` | src/zset.cpp:33-50 | over runs from empty the two indexes agree at every step exactly when every added member is free of NULs |
| `ZSetModel.AddBreaksAgreement` | src/zset.cpp:33-42 | a member with a NUL breaks the agreement at once |
| `Dicts.Dict.Get` | src/dict.cpp:81-92 | lookup is that of the finite map |
| `Dicts.FindEntry` | src/dict.cpp:83-91 | walking a chain finds the first entry of the key, or null |
| `Dicts.FindWithPrev` | src/dict.cpp:96-110 | walking a chain finds the entry of the key and the one before it |
| `Dicts.Dict.Set` | src/dict.cpp:55-79 | set is map update across a resize; size stays a power of two, every entry sits in the bucket of its hash, no key twice, `count` is the map's size, and the load and amortised bounds (see `LoadedGrow`) hold after every call; the size doubles, and `count` entries are relinked, exactly when the load was above three quarters |
| `Dicts.Dict.PushNew` | src/dict.cpp:73-78 | a key that is not there yet is put at the head of its bucket's chain and nothing else changes |
| `Dicts.Dict.Overwrite` | src/dict.cpp:64-68 | writing a found entry's value updates exactly that key |
| `Dicts.Dict.Del` | src/dict.cpp:94-112 | del is map removal and answers whether the key was there |
| `Dicts.NewBuckets` | src/dict.cpp:16-20 | a cleared bucket array of any size is a well-formed table of the empty map |
| `Dicts.Rehash` | src/dict.cpp:38-53 | relinking every entry into a bucket array of another size leaves the map and the set of entries unchanged, in as many turns as there are keys |
| `Dicts.RelinkChain` | src/dict.cpp:41-48 | moving one chain entry by entry, its `next` pointers overwritten on the way, moves exactly its keys and disturbs no chain still to come |
| `Dicts.RelinkEntry` | src/dict.cpp:43-47 | an entry pushed onto its new bucket adds exactly its key to the new table |
| `Dicts.Unlink` | src/dict.cpp:99-107 | bypassing an entry at the head or behind its predecessor removes exactly its key from the table |
| `Dicts.UnlinkFirst` | src/dict.cpp:96-101 | pointing the bucket past its first entry removes exactly that key |
| `Dicts.UnlinkBehind` | src/dict.cpp:99-109 | pointing an entry past the one behind it removes exactly that key and disturbs no other chain |
| `Dicts.Dict.Grow` | src/dict.cpp:57-59 | resizing doubles the size, keeps the map, relinks `count` entries, and brings the load to three quarters or less |
| `Dicts.LoadedGrow` | src/dict.cpp:57-59 | the load bound 4 count <= 3 size + 4 and the amortised bound (entries relinked since the start <= 3 times the new keys put in) survive a resize |
| `Dicts.LoadedLess` | src/dict.cpp:101-106 | and survive a removal |
| `Dicts.Dict.Bounds` | src/dict.cpp:38-59 | of every table: 4 count <= 3 size + 4, entries relinked <= 3 times the new keys put in, and `count` is the map's size |
| `Dicts.Dict.Masked` | src/dict.cpp:44-61 | every entry sits in the bucket `hash & (size - 1)` |
| `Chains.MaskIsRemainder` | src/dict.cpp:61-61 | masking with a power of two less one is taking the remainder |
| `Dicts.Dict.ForEach` | src/dict.cpp:118-127 | the callback is run over a listing of the map, each entry exactly once, until it says stop |
| `Dicts.Dict.Count` | src/dict.cpp:114-116 | the number of keys of the map |
| `Dicts.VisitChain` | src/dict.cpp:120-125 | the callback along one chain: its pairs in order, until it says stop |
| `Chains.ItemsEnumerate` | src/dict.cpp:118-127 | bucket by bucket and along each chain every pair of the map is met exactly once |
| `Resp.RespParse` | src/resp.cpp:16-100 | the loops over pointer, remaining length and position compute the parse function on every buffer |
| `Resp.FindCrlfLoop` | src/resp.cpp:6-13 | finds the first CRLF, or -1 |
| `LineLaws.FindCrlfFirst` | src/resp.cpp:6-13 | the line end found is the first there is, and none is found only where there is none |
| `Resp.SplitWords` | src/resp.cpp:26-35 | the loops compute the word function (see `WordsOfLine` and `LineOfWords`) |
| `LineLaws.WordsOfLine` | src/resp.cpp:26-35 | words without spaces in them, with any spaces before and behind and at least one between, come out as these words |
| `LineLaws.LineOfWords` | src/resp.cpp:26-35 | and every line is made of its words and such gaps, so nothing but spaces is left out |
| `LineLaws.InlineRoundTrip` | src/resp.cpp:22-45 | a line of words, without a line end inside and not beginning with `*`, is parsed to these words, whatever follows, up to and including its line end |
| `LineLaws.InlineBlank` | src/resp.cpp:37-40 | a line of nothing but spaces is an error |
| `LineLaws.StrtolPlain` | src/resp.cpp:58-79 | behind any white space the digits up to the first other byte are the number, read to the base ten |
| `LineLaws.StrtolSigned` | src/resp.cpp:58-79 | `-` before the digits makes the number negative, `+` leaves it as it is |
| `LineLaws.StrtolNone` | src/resp.cpp:58-79 | where neither digit nor sign stands the number is zero |
| `LineLaws.DecimalMeans` | src/resp.cpp:116-127 | a size is printed as its decimal numeral, without zeros in front |
| `Resp.ParseItemAt` | src/resp.cpp:69-94 | one turn of the item loop reads, at a position, what the item function reads from the rest of the buffer |
| `Resp.ParseItemsLoop` | src/resp.cpp:68-95 | the item loop reads the announced strings one after the other and stops at the first that fails |
| `RespLaws.ParseStable` | src/resp.cpp:16-100 | a buffer that parses to OK or ERROR without reading a blank header gives the same status, arguments and length with anything behind it |
| `RespLaws.FinalExact` | src/resp.cpp:16-100 | an OK or ERROR stays the same, arguments and length included, whatever bytes come behind it, exactly when the scan of every count and accepted length that was read ended before the bytes did; a count whose scan did not may have a minus sign or two bytes behind its line |
| `RespLaws.RefusalExact` | src/resp.cpp:16-100 | an ERROR stays one exactly under the same condition, except that an accepted length may have a minus sign too |
| `RespLaws.CountLineExact` | src/resp.cpp:48-64 | a complete count line makes every answer to the requests that begin with it final exactly when it is not blank |
| `RespLaws.LengthLineExact` | src/resp.cpp:76-94 | a complete length line makes every reading of its string final exactly when it is not blank |
| `RespLaws.StrtolStable` | src/resp.cpp:58-58 | the number in a header depends on the bytes behind the header exactly when the header is blank |
| `RespLaws.BlankLengthUnstable` | src/resp.cpp:79-94 | any command whose last length line is blank parses, with an empty last argument, until a digit arrives and it no longer does |
| `RespLaws.LengthUnstable` | src/resp.cpp:68-95 | a blank length line anywhere in a command gives an answer that a later digit takes back |
| `RespLaws.ParseProgress` | src/resp.cpp:16-100 | on OK at least two bytes and at most the whole buffer are consumed, and there is at least one argument |
| `RespLaws.RespArray` | src/resp.cpp:126-132 | the printing loop produces the encoding |
| `RespLaws.RoundTrip` | src/resp.cpp:48-132 | for any list of any byte strings and any tail, parsing the encoding and the tail gives OK, the same list and the encoding's length; the empty list, and only it, is an error |
| `RespLaws.PrefixIncomplete` | src/resp.cpp:48-95 | every proper prefix of an encoding of at least one string is INCOMPLETE |
| `Server.Connection.HandleRead` | src/server.cpp:128-175 | one read event, however many pieces it receives and however it ends, changes the connection as the session function says |
| `Server.Connection.DispatchAll` | src/server.cpp:148-169 | the parse, dispatch and erase loop computes the draining function, and ends |
| `Server.Connection.ReceiveAll` | src/server.cpp:132-136 | the receiving loop appends the pieces in order |
| `Server.DrainPrefix` | src/server.cpp:148-169 | draining what has come and then the rest is draining it all at once, on streams without blank headers |
| `Server.FragmentationInvisible` | src/server.cpp:128-169 | two ways to cut one stream without blank headers into reads dispatch the same commands, hold back the same bytes and close alike |
| `Server.CutExact` | src/server.cpp:128-169 | a cut behind given bytes never shows, whatever follows, exactly when no number read on the way through them can still change what is dispatched or refused |
| `Server.SettledCutsInvisible` | src/server.cpp:128-169 | a stream cut only behind such bytes makes the session of a single read, blank headers or not |
| `Server.FragmentationExact` | src/server.cpp:128-169 | a stream that begins with a given count line, and has no blank header behind it, may be cut anywhere exactly when that line is not blank |
| `Server.LengthFragmentationExact` | src/server.cpp:128-169 | the same for the length line of any string of a command, behind any strings and before any number of them |
| `Server.BlankHeaderVisible` | src/server.cpp:128-169 | for every blank header, as a count or as a length behind any strings, there is a stream and a cut that shows |
| `Server.CommandsArrive` | src/server.cpp:128-169 | whatever nonempty commands a client encodes and however their bytes are cut, the server dispatches exactly those, in order, up to and including the first QUIT |
| `Server.ServedMeans` | src/server.cpp:148-169 | served means: all commands and the connection stays open, or all up to and including the first QUIT and the connection is closed |
| `Server.IsQuitMeans` | src/commands.cpp:97-101 | the closing command is `quit` in any mixture of cases |
| `Server.ErrorCloses` | src/server.cpp:153-158 | a protocol error closes the connection: the commands before it are dispatched, nothing behind it is, and nothing that comes later is |
| `Server.DrainBehind` | src/server.cpp:148-163 | whole encoded commands at the front of a buffer are dispatched, and then the rest is drained |
| `Server.InlineDispatched` | src/server.cpp:148-163 | an inline command at the front of a buffer is dispatched as its words, and then the rest is drained |
| `Server.EndOfStreamDrops` | src/server.cpp:137-145 | bytes that arrive together with the end of the stream are lost, and that matters exactly when what was held back and they begin with a whole command |
| `Server.EndCloses` | src/server.cpp:137-145 | an end of stream or a failed read closes the connection and dispatches nothing |
| `Crc.BuildTable` | src/rdb.cpp:19-30 | entry i of the table is i after eight bit steps |
| `Crc.Crc64Update` | src/rdb.cpp:32-37 | the table loop computes the checksum that is defined bit by bit, for every start and all bytes |
| `Crc.TableTurnIsBitwise` | src/rdb.cpp:35-35 | one table turn equals xoring the byte in and eight bit steps |
| `Crc.StepLinear` | src/rdb.cpp:24-25 | a bit step is linear over exclusive or |
| `Crc.StepMeans` | src/rdb.cpp:24-25 | a bit step halves and, for odd values, xors 0xad93d23594c935a9 in |
| `Crc.StepInjective` | src/rdb.cpp:24-25 | a bit step loses nothing: the constant's top bit tells which branch was taken |
| `Crc.UpdateJoin` | src/rdb.cpp:32-37 | updating piece by piece equals updating with the concatenation |
| `Crc.UpdateInjective` | src/rdb.cpp:32-37 | over the same bytes, different running checksums stay different |
| `Crc.UpdatePacked` | src/rdb.cpp:32-37 | over up to eight bytes the checksum is that many steps of the start xored with the bytes packed in one word |
| `Crc.BurstDetected` | src/rdb.cpp:32-37 | two byte strings that differ only inside a window of eight neighbouring bytes never have the same checksum from the same start |
| `Codec.ReadNat` | src/rdb.cpp:52-80 | an unsigned field that fits its width reads back |
| `Codec.ReadInt64` | src/rdb.cpp:55-81 | a signed 64-bit field reads back |
| `Codec.ReadScore` | src/rdb.cpp:56-82 | a score reads back |
| `Codec.ReadBlob` | src/rdb.cpp:58-93 | a blob reads back cut to its length modulo 2^32, for lengths other than 2^32 - 1 |
| `SnapshotRefusals.PutAt` | src/rdb.cpp:52-56 | byte i of a field is the i-th digit of the number to the base 256, lowest first |
| `SnapshotRefusals.FieldsHold` | src/rdb.cpp:55-56 | a signed field holds the number modulo 2^64, a score field sign bit and magnitude |
| `SnapshotRefusals.FileLayout` | src/rdb.cpp:196-214 | a snapshot begins with "MRDB", version 1 and the number of keys, and ends with the checksum of all before |
| `SnapshotRefusals.EntryLayout` | src/rdb.cpp:113-119 | an entry is its type, 0 to 3, its expiry, its key and its value |
| `SnapshotRefusals.BodyLayout` | src/rdb.cpp:121-165 | a value is a count and its parts |
| `SnapshotRefusals.PartsLayout` | src/rdb.cpp:130-162 | list values in order; each field before its value; each score before its member |
| `Rdb.Writer.Write` | src/rdb.cpp:46-50 | the running checksum is always that of everything written so far |
| `Rdb.Writer.WriteBlob` | src/rdb.cpp:58-60 | appends the length modulo 2^32 and the bytes |
| `Rdb.Writer.WriteBlobs` | src/rdb.cpp:130-134 | the list loop appends every value in order |
| `Rdb.Writer.WriteFields` | src/rdb.cpp:143-148 | the hash loop appends every collected field with its value |
| `Rdb.Writer.WriteElems` | src/rdb.cpp:159-162 | the sorted-set loop appends every score and member |
| `Rdb.Writer.WriteBody` | src/rdb.cpp:121-165 | appends the encoding of a value of any of the four types, cut as the source cuts it |
| `Rdb.Writer.WriteEntry` | src/rdb.cpp:113-167 | writing an entry appends exactly its encoding |
| `Rdb.Reader.ReadBytes` | src/rdb.cpp:71-76 | reading takes the next bytes or fails for good; the running checksum is that of everything read |
| `Rdb.Reader.ReadBlob` | src/rdb.cpp:85-93 | reads the length and then so many bytes, or fails, for lengths other than 2^32 - 1 |
| `Rdb.Reader.ReadBlobs` | src/rdb.cpp:289-295 | the list loop reads the announced values in order |
| `Rdb.Reader.ReadFields` | src/rdb.cpp:304-313 | the hash loop sets every field as it is read, a later one over an earlier one |
| `Rdb.Reader.ReadElems` | src/rdb.cpp:322-330 | the sorted-set loop adds every element to both indexes as it is read |
| `Rdb.Reader.ReadEntry` | src/rdb.cpp:260-342 | the reader gets from the bytes what the format function says, or fails where it does |
| `Rdb.RdbSave` | src/rdb.cpp:185-228 | the file is the encoding of a listing of the whole keyspace, each key once, each hash in the order of its own table |
| `Rdb.RdbLoad` | src/rdb.cpp:230-366 | on any bytes in which no blob length read is 2^32 - 1, the answer and the table left behind are those of the load function, also when the load fails halfway |
| `Rdb.ReadFront` | src/rdb.cpp:236-256 | magic, version and key count, or a refusal |
| `Rdb.LoadLoop` | src/rdb.cpp:259-351 | the loop over the keys sets in the table exactly what the load function sets, and stops where it stops |
| `Rdb.CheckStored` | src/rdb.cpp:354-360 | accepts exactly when the next eight bytes are the checksum of everything read |
| `RdbObjects.WriteList` | src/rdb.cpp:127-136 | walking the list's own nodes writes the encoding of the sequence it stands for |
| `RdbObjects.CollectFields` | src/rdb.cpp:104-111 | the collecting callback keeps exactly the first 4096 fields it is shown |
| `RdbObjects.WriteHash` | src/rdb.cpp:138-150 | visiting the hash's own table with that callback writes the encoding of a listing of the hash |
| `RdbObjects.WriteSorted` | src/rdb.cpp:152-163 | the cardinality and the range by rank of the skip list write the encoding of the sorted set |
| `RdbObjects.ReadList` | src/rdb.cpp:285-298 | pushing each value behind as it is read makes a new, well-linked list of exactly the values the format function gives, or none where it fails |
| `RdbObjects.ReadHash` | src/rdb.cpp:300-316 | setting each field in a new table as it is read makes exactly the map the format function gives, or none where it fails |
| `RdbObjects.ReadSorted` | src/rdb.cpp:318-333 | adding each element to a new sorted set as it is read makes exactly the two indexes the format function gives, or none where it fails |
| `Rdb.Restart` | src/rdb.cpp:185-366 | saving the keyspace's table and loading the file into a new one under any other hash always succeeds; exactly the keys without an expiry and those that expire now or later come back, and they come back as they were if and only if no hash among them has more than 4096 fields; keys and values shorter than 2^32 - 1 bytes, fewer than 2^32 list values, sorted sets whose indexes agree and up to 4096 elements |
| `SnapshotLaws.ReadEntry` | src/rdb.cpp:113-342 | an entry of any of the four types, its strings shorter than 2^32 - 1 bytes, reads back, whatever follows it |
| `SnapshotLaws.StoreRoundTrip` | src/rdb.cpp:113-366 | loading what was saved of a keyspace always succeeds; exactly the keys without an expiry and those that expire now or later are loaded, and they are as they were if and only if no hash among them has more than 4096 fields; keys and values shorter than 2^32 - 1 bytes, fewer than 2^32 list values, sorted sets whose indexes agree and up to 4096 elements |
| `SnapshotLaws.SnapshotRoundTrip` | src/rdb.cpp:113-366 | the same for hashes of any size, each coming back as the first 4096 fields of its listing |
| `SnapshotLaws.SavedKeySurvives` | src/rdb.cpp:259-351 | with a clock that moves while loading, a saved key is loaded exactly when it has no expiry or the reading at its turn is not past it, and then with its value |
| `SnapshotLaws.NothingElseLoaded` | src/rdb.cpp:259-351 | no other key is loaded |
| `SnapshotLaws.KeptKeys` | src/rdb.cpp:345-349 | the keys kept are those without an expiry and those that expire now or later, with their values |
| `SnapshotLaws.AddAllRebuilds` | src/rdb.cpp:318-331 | adding a sorted set's elements in their order rebuilds both indexes |
| `SnapshotLaws.HashRestoredWhole` | src/rdb.cpp:138-150 | a saved hash comes back whole exactly when it has at most 4096 fields |
| `SnapshotLaws.SortedEntryExact` | src/rdb.cpp:152-163 | an entry that holds a sorted set reads back, whatever follows it, exactly when the set has at most 4096 elements |
| `SnapshotLaws.SortedSetSavedExact` | src/rdb.cpp:152-351 | a file whose last entry is a sorted set loads exactly when the set has at most 4096 elements |
| `SnapshotLaws.AcceptedIsChecked` | src/rdb.cpp:354-361 | whatever bytes load successfully end, where reading stopped, in the checksum of everything before |
| `SnapshotRefusals.HeaderRefused` | src/rdb.cpp:236-256 | a file that does not begin with "MRDB", version 1 and eight bytes more is refused and leaves the table as it was |
| `SnapshotRefusals.TruncatedRefused` | src/rdb.cpp:230-366 | a snapshot cut short anywhere is refused |
| `SnapshotRefusals.EntryStable` | src/rdb.cpp:260-342 | an entry that has been read is the same with more bytes behind it |
| `SnapshotRefusals.HalfLoaded` | src/rdb.cpp:259-351 | where an entry cannot be read, because bytes run out or its type is unknown, the load fails and keeps exactly the keys before it |
| `SnapshotLaws.ChecksumExact` | src/rdb.cpp:354-361 | behind the saved keys, the checksum of a save is accepted and no other eight bytes are |
| `SnapshotLaws.ForgedKeysRefused` | src/rdb.cpp:259-361 | damage within eight neighbouring bytes that turns the saved keys into other well-formed ones, be it in a key, a value, a score or an expiry time, is always refused |
| `Keyspace.RemoveFieldsLeaves` | src/commands.cpp:402-405 | HDEL takes away exactly the fields named |
| `Keyspace.RemoveFieldsCounts` | src/commands.cpp:402-405 | and answers with how many fields there are less |
| `Keyspace.RemoveMembersIs` | src/commands.cpp:553-556 | ZREM takes exactly the members named from both indexes, keeps them together and counts how many elements there are less |
| `Keyspace.AddAllIs` | src/commands.cpp:487-493 | ZADD of NUL-free members keeps the indexes together and leaves each member with the last of its scores |
| `Keyspace.RepliesCount` | src/commands.cpp:212-557 | HSET answers with how many fields there are more, HDEL and ZREM with how many there are less, pushes and APPEND with the new length, a delivering pop takes one element; a wrong type or a null answer changes nothing |
| `Keyspace.ListsStayFilled` | src/commands.cpp:286-326 | no command leaves an empty list under a key |
| `Keyspace.SetsStayTogether` | src/commands.cpp:483-557 | no command parts the two indexes of a stored sorted set, as long as ZADD is given members free of NULs |
| `Readback.OnLive` | src/expiry.cpp:14-21 | a handler that checks expiry works on the value while it has no deadline or its deadline is ahead, and leaves other keys alone |
| `Readback.OnAbsent` | src/expiry.cpp:14-21 | and otherwise as if the key were not there |
| `Readback.ExpireThenTtl` | src/commands.cpp:116-137 | after EXPIRE the key holds what it held, other keys are as they were, and TTL counts 1000 times the seconds down, rounded up, to the deadline and is -2 from there |
| `Readback.ExpireThenGet` | src/commands.cpp:116-123 | and a handler that checks expiry finds the value before the deadline and nothing from the deadline on |
| `Readback.ExpireToZero` | src/commands.cpp:116-123 | a deadline of 0 is no deadline |
| `Readback.ExpireMissing` | src/commands.cpp:116-144 | EXPIRE and PERSIST of a missing key answer 0 and change nothing; its TTL is -2 |
| `Readback.PersistThenTtl` | src/commands.cpp:138-144 | after PERSIST the key holds what it held and TTL is -1 at every time; the answer says whether there was a deadline |
| `Readback.SetThenGet` | src/commands.cpp:57-72 | after SET, GET is the new string and TTL -1 at every time, whatever was there; other keys are as they were |
| `Readback.SetNxThenGet` | src/commands.cpp:203-210 | SETNX leaves a live key alone and answers 0, and is SET and answers 1 where there is none |
| `Readback.AppendThenGet` | src/commands.cpp:212-234 | after APPEND, GET is the old string and the new bytes behind it, STRLEN and the answer are its length, and the deadline stays |
| `Readback.FlushThenNothing` | src/commands.cpp:146-151 | after FLUSHDB there is no key, DBSIZE is 0, and every lookup finds nothing |
| `Readback.DelThenGone` | src/commands.cpp:74-95 | DEL takes away exactly the keys named and answers with how many there are less; DBSIZE is how many there are |
| `Readback.ListReads` | src/commands.cpp:328-359 | LLEN is the length of a list, LRANGE 0 -1 all of it up to 65536 values, LINDEX k the k-th value and LINDEX -k the k-th from the end |
| `Readback.PushThenRead` | src/commands.cpp:286-302 | RPUSH puts its values behind in their order, LPUSH puts them in front in the opposite order; the answer is the new length |
| `Readback.PopThenRead` | src/commands.cpp:304-326 | LPOP takes the first value and RPOP the last, and the key goes with the only one |
| `Readback.HashReads` | src/commands.cpp:387-422 | HGET, HEXISTS and HLEN read the fields of a hash |
| `Readback.HSetThenGet` | src/commands.cpp:374-395 | after HSET every field named has the last of its values and the others are as they were |
| `Readback.HDelThenGet` | src/commands.cpp:387-406 | after HDEL the fields named are gone and the others are as they were |
| `Readback.SortedReads` | src/commands.cpp:495-546 | ZSCORE and ZCARD read the scores of a sorted set, ZRANGE 0 -1 is all of it up to 4096 elements |
| `Readback.RankReads` | src/commands.cpp:530-538 | ZRANK is the place of a member when smaller scores, and smaller members among equal scores, come first |
| `Readback.ZAddThenScore` | src/commands.cpp:483-505 | after ZADD of NUL-free members each has the last of its scores and the others are as they were; the answer is the number of pairs |
| `Readback.ZRemThenScore` | src/commands.cpp:495-557 | after ZREM the members named are gone and the others are as they were |
| `Readback.WrongKind` | src/commands.cpp:65-557 | which handlers refuse a value of another kind and which answer as if nothing were there |
| `Expiry.CommandTransparent` | src/commands.cpp:57-144 | a command replies as on the keyspace that drops keys at their deadline, and leaves what nobody can tell from it then or later, exactly when no key that it looks up unchecked lingers |
| `Expiry.DisturbedShows` | src/commands.cpp:74-144 | the reply alone is right exactly when no key that the command looks up unchecked lingers |
| `Expiry.OnSame` | src/expiry.cpp:14-21 | the handlers that check expiry first are always transparent |
| `Expiry.ExistsSame` | src/commands.cpp:82-90 | EXISTS, the clock read anew for every key, gives the same count on keyspaces that nobody can tell apart and leaves such |
| `Expiry.ExistsCounts` | src/commands.cpp:82-90 | EXISTS counts the keys that are live when their turn comes, whatever lingers |
| `Expiry.DelSame` | src/commands.cpp:74-80 | DEL counts too many exactly when one of its keys lingers |
| `Expiry.LiveCount` | src/commands.cpp:92-95 | DBSIZE is the number of live keys exactly when nothing lingers |
| `Expiry.TtlIsCeiling` | src/commands.cpp:125-137 | TTL of a live key with an expiry is the remaining time rounded up to seconds; at or after the deadline it is -2 |
| `Expiry.RunExact` | src/expiry.cpp:14-56 | over any run of commands, looks and deletes of the sweep with time not going back, every reply is right and the keyspace after every step cannot be told from the one that drops keys at their deadline and has no sweep, exactly when no command looks up a lingering key unchecked and no delete of the sweep strikes a live key |
| `Expiry.UnwrittenExact` | src/expiry.cpp:14-56 | if no command writes a key between the sweep's look at it and its delete, expiry never shows exactly when no command looks up a lingering key unchecked |
| `Expiry.UnwrittenStale` | src/expiry.cpp:14-19 | if no command writes a key (SET, SETNX, APPEND, LPUSH, RPUSH, HSET, ZADD, EXPIRE or PERSIST of it) between the look and the delete, no delete of the sweep strikes a live key |
| `Expiry.WritesRevive` | src/commands.cpp:57-144 | and each of these commands can make the key live: the first seven always, PERSIST when it lingers, EXPIRE when it lingers and the new deadline is ahead |
| `Expiry.SweepLosesWrite` | src/expiry.cpp:14-19 | and that is needed: for every lingering key and every value, a SET between the look and the delete is lost, and a GET then answers nil |
| `Expiry.DeleteExact` | src/expiry.cpp:19-19 | deleting a key cannot be seen, then or later, exactly when the key cannot be seen |
| `Expiry.LookThenDelete` | src/expiry.cpp:14-21 | with nothing in between, a look and its delete are `check_expiry` |
| `Expiry.RepliesExact` | src/expiry.cpp:14-56 | if no delete of the sweep strikes a live key, the replies alone are right exactly when no command looks up a lingering key unchecked |
| `Expiry.RunTransparent` | src/expiry.cpp:14-56 | under both conditions all replies are right, and nobody can tell the keyspace in the end from the one that drops keys at their deadline, then or later |
| `Expiry.RunKeepsFilled` | src/commands.cpp:286-326 | over any run no list becomes empty |
| `Expiry.RunKeepsTogether` | src/commands.cpp:483-557 | over any run no sorted set's indexes part |
| `Expiry.QueueDelivers` | src/commands.cpp:286-326 | what LPUSH puts into a list that is not there, RPOP delivers in the same order, at any times, and the key is gone with the last value |
| `Commands.CheckExpiry` | src/expiry.cpp:14-21 | deletes a key exactly when its deadline has come and says so |
| `Commands.Handle` | src/commands.cpp:203-557 | checking expiry, looking up, and writing back or deleting on the hash table give the keyspace and reply of the command; what happens to the value in between is proved on the linked structures by the `Objects` rows |
| `Commands.HandleSet` | src/commands.cpp:57-63 | SET replaces whatever is under the key by the string without an expiry |
| `Commands.HandleGet` | src/commands.cpp:65-72 | GET checks expiry and answers the string, nil or a wrong type, as specified |
| `Commands.HandleType` | src/commands.cpp:104-115 | TYPE checks expiry and names the kind of the value |
| `Commands.HandleSetNx` | src/commands.cpp:203-210 | SETNX checks expiry and sets the key only if it is not there then |
| `Commands.HandleAppend` | src/commands.cpp:212-225 | APPEND checks expiry, makes the string or lets it grow, keeping its expiry, and answers the length |
| `Commands.HandleStrLen` | src/commands.cpp:227-234 | STRLEN checks expiry and answers the length, 0 or a wrong type, as specified |
| `Objects.SetFields` | src/commands.cpp:378-383 | the HSET loop on the hash's own table sets every field, a later value over an earlier one, and counts the fields that were not there when their turn came |
| `Objects.DeleteFields` | src/commands.cpp:402-404 | the HDEL loop on the hash's own table deletes every field named and counts those that were there when their turn came |
| `Objects.OnHash` | src/commands.cpp:374-422 | each hash handler leaves in the table, and answers, what the command says |
| `Objects.AddPairs` | src/commands.cpp:487-491 | the ZADD loop on skip list and table adds every pair in turn, and counts them all |
| `Objects.DeleteMembers` | src/commands.cpp:553-555 | the ZREM loop on skip list and table removes every member named and counts those that were there when their turn came |
| `Objects.OnSorted` | src/commands.cpp:483-557 | each sorted-set handler leaves in skip list and table, and answers, what the command says |
| `Objects.PushList` | src/commands.cpp:286-302 | the push handlers leave in the linked list, and answer, what the command says |
| `Objects.PopList` | src/commands.cpp:304-326 | the pop handlers leave in the linked list, and answer, what the command says, the key being deleted exactly when the list has become empty |
| `Objects.LookAtList` | src/commands.cpp:328-359 | LLEN, LRANGE and LINDEX answer what the command says from the linked nodes |
| `Commands.HandleTtl` | src/commands.cpp:125-137 | TTL deletes an expired key and gives the specified reply |
| `Commands.HandleExpire` | src/commands.cpp:116-123 | EXPIRE changes the key in place and gives the specified reply |
| `Commands.HandlePersist` | src/commands.cpp:138-144 | PERSIST changes the key in place and gives the specified reply |
| `Commands.HandleExists` | src/commands.cpp:82-90 | the loop over the keys, with a clock reading for each, gives the specified keyspace and count |
| `Commands.HandleDel` | src/commands.cpp:74-80 | the loop over the keys gives the specified keyspace and count |
| `Commands.SweepCollects` | src/expiry.cpp:34-42 | the callback collects exactly the first twenty keys with an expiry, in table order |
| `Commands.SweepPass` | src/expiry.cpp:44-56 | one pass collects at most twenty keys with an expiry, none twice, and all there are if they are fewer, in table order, and checks each of them |
| `Commands.CheckAllDeletes` | src/expiry.cpp:52-54 | exactly the keys that are past their deadline when their turn comes are deleted |
| `Commands.SweepUnseen` | src/expiry.cpp:52-54 | checking any keys at any times changes nothing that can be seen from the last of these times on |
| `Glob.GlobMatch` | src/commands.cpp:159-178 | the backtracking loops terminate and compute the recursive decision |
| `Glob.MatchesParts` | src/commands.cpp:159-178 | the declared meaning: a pattern of two parts matches what the parts match, one behind the other |
| `Glob.MatchesOne` | src/commands.cpp:159-178 | `*` matches everything, `?` every single byte, any other byte itself, and the empty pattern only the empty string |
| `Glob.CorrectedIs` | src/commands.cpp:161-168 | the corrected pattern is the pattern with a final run of two or more stars made `?*` |
| `Glob.DecidesCorrected` | src/commands.cpp:159-178 | for every pattern and string the code decides the declared meaning of the pattern with a final run of two or more stars read as `?*` |
| `Glob.GlobSound` | src/commands.cpp:159-178 | what the code accepts does match |
| `Glob.GlobExact` | src/commands.cpp:161-168 | the code decides the declared meaning on all strings exactly when the pattern does not end in two stars |
| `LinkedLists.List.LPush` | src/list.cpp:21-31 | the value is put in front; `prev` and `next` mirror each other, head, tail and length agree |
| `LinkedLists.List.RPush` | src/list.cpp:34-44 | the value is put behind, likewise |
| `LinkedLists.List.LPop` | src/list.cpp:47-57 | takes the first value off, or answers nothing and changes nothing |
| `LinkedLists.List.RPop` | src/list.cpp:60-70 | takes the last value off, or answers nothing and changes nothing |
| `LinkedLists.List.Index` | src/list.cpp:78-92 | walking from either end gives the element at the possibly negative index, or nothing outside |
| `LinkedLists.List.Range` | src/list.cpp:95-112 | exactly the clamped slice of the values, cut at `max` |
| `Sequences.ClampRange` | src/list.cpp:96-101 | the bounds are normalised from the end and put inside the sequence |
| `Sequences.SliceMeans` | src/list.cpp:95-112 | a range is the first `max` of the elements from start to end inclusive, in their order, where -1 is the last position; positions outside count for nothing |
| `Sequences.SliceWhole` | src/list.cpp:95-112 | from 0 to -1 is everything |
| `Sequences.ItemAtMeans` | src/list.cpp:78-92 | index -k is the k-th element from the end, and outside there is none |
| `LinkedLists.List.Collect` | src/list.cpp:103-111 | from a position on, the values up to another, at most `max` of them |
| `LinkedLists.LinkedCut` | src/list.cpp:47-57 | a chain linked both ways can be cut anywhere into two |
| `LinkedLists.LinkedJoin` | src/list.cpp:21-44 | two chains without a common node that point at each other's ends make one |
| `LinkedLists.PushLeft` | src/commands.cpp:290-291 | LPUSH of several values leaves them in front, the last one first |
| `LinkedLists.PushRight` | src/commands.cpp:299-300 | RPUSH of several values leaves them behind, in their order |

## Left out

- RespLaws.ParseStable: one direction, under the simpler condition that no header read is blank; RespLaws.FinalExact is exact.
- Server.FragmentationInvisible: one direction, for all ways to cut one stream; Server.CutExact is exact for a cut, whatever follows it.
- SnapshotLaws.SortedSetSavedExact: only for a sorted set that is the last entry; too large a one in the middle of a file makes the rest be read from the wrong place, and what comes of that depends on the bytes (SnapshotLaws.SortedEntryExact holds for every place).
- SnapshotLaws.ForgedKeysRefused: damage to a length can move the place where the checksum is looked for, and then only SnapshotLaws.AcceptedIsChecked applies.
- Commands.Handle: the values under a key are values there; the linked structures are proved to do the same to them one by one (Objects, RdbObjects) but are not nested inside the keyspace's table, so nothing is said about two keys sharing a structure.
- Rdb.Writer.WriteBody: takes lists, hashes and sorted sets as values, as do the branches of Rdb.Reader.ReadBody; writing and reading the linked structures themselves is RdbObjects.
- SkipLists.SkipList.Insert: a node keeps the part of its member before the first NUL; the bytes behind it, which nothing reads, are not modelled. Freed memory is not modelled.
- Dicts.Unlink: the source keeps the address of the pointer to overwrite; the model keeps the previous entry, or none for the bucket itself.
- Rdb.RdbLoad: the reader adds one to a 32-bit blob length before it allocates (src/rdb.cpp:88); at 2^32 - 1 the sum wraps to 0 and the bytes read overflow the buffer. What happens then is not modelled, and every theorem about saved files asks for shorter strings.
- Rdb.Reader.ReadBlob: the same length is read like any other here.
- Rdb.RdbSave: the callback that writes each entry is split in two, a listing of the table and a loop that writes it; the order in which each hash's own table is visited is a parameter.
- Fixed widths outside the snapshot: list lengths, ranks, indexes, CRLF positions and `strtol` results are unbounded, so truncation to `int` and clamping to `long` do not show.
- The hash function's own constants, FNV-1a, because no theorem depends on them.
- INCR and its relatives, HGETALL, HKEYS, HVALS, KEYS, SELECT, PING, ECHO: they add only easy cases or text formatting; KEYS only calls `glob_match`.
- Readback.ExpireThenTtl: asks that the deadline fits 64 bits; beyond that the source's sum overflows, and the model wraps around.
- Argument counts, number parsing in arguments (`stol`, `stod`) and the text of replies and errors.
- Sockets, polling, accepting, sending and the reply to a protocol error or QUIT, which is dropped when the connection is closed.
- Files, renaming, forking for background saves and write failures.
- That the sweep ever removes every expired key: it always takes the first twenty in table order.
