# Verified models of the core of libcextern

This project models the parts of SylixOS libcextern (`sylixos_base/libcextern/libcextern`) that carry the most state and
arithmetic, and proves what they are for. Each part is one group of modules:

- **Citrus database** (`CitrusDbFactory`, `CitrusSlots`, `CitrusImage`, `CitrusDb`, `CitrusChain`, `CitrusRoundTrip`, `CitrusTwice`, `CitrusHash`):
  the writer that arranges entries in a hashed directory and lays them out in one region, the reader that follows
  offsets, and the round trip between them. The main result is an equivalence, because the reader takes the end of the
  file for no position: the last datum must not be empty.
- **Citrus lookup tables** (`CitrusText`, `CitrusMemstream`, `CitrusBcs`, `CitrusLookup`, `CitrusLookupFactory`, `CitrusRefinement`): the plain
  scan of a text table, its compiler, and the proof that the compiled form refines the plain one, again with the exact
  condition.
- **Converter cache** (`CitrusIconv`): reference counts, the hash pool and the bounded queue of unused converters.
- **File tree walk** (`FtsTree`, `FtsContents`, `FtsStack`, `FtsNodes`, `FtsShape`, `FtsWalk`): `fts_open` and `fts_read` over linked nodes and a path buffer.
  The file system is an immutable world of `readdir` and `stat` results in which directories may form cycles. The
  specification is a recursive listing, and every read takes away its first event. What a listing contains is proved apart
  from how it recurses.
- **Capability records** (`GetcapFields`, `GetcapMatch`, `GetcapExpand`, `GetcapSplice`, `Getcap`): `cgetcap`, `cgetmatch`, and the in-place expansion
  of `tc=` references in `getent`. A database is a sequence of files, each a sequence of records.
- **MD5** (`Md5Words`, `Md5`, `Md5Message`): the streaming buffer and the padding, over any compression function.
- **Event library** (`EvTime`, `EvHeapOrder`, `EvHeap`, `EvTimers`, `EvIdle`, `EvFileList`, `EvThreads`, `EvFiles`, `EvModes`, `EvScan`, `EvLoop`): the timer heap with
  its back-pointers, timers and idle timers, the doubly threaded registry of descriptors, and the account of ready bits
  in `evGetNext`, in the build without USE_POLL. `pselect` is a sequence of answers that are exact: the bits left are
  requested ones, and the count is their number.
- **Allocator** (`MemChunks`, `MemLists`, `MemStates`, `Memcluster`): `memget` and `memput` over an address space in which the free lists are
  linked through the free pieces themselves, in the build without debugging and with MEMCLUSTER_BIG_MALLOC.
- **Visual encoding** (`Vis`, `VisDecode`, `VisForms`) and **wide-string conversion** (`WcsNumber`, `Wcstol`).

`Octets`, `Options`, `Scan` and `Permutation` hold what several parts share. Loops and objects of the source are loops and
classes here; each method is proved against functions or predicates on values, and the lemmas are about those.
`dafny verify dfyconfig.toml` checks everything.

## Where the code does not do what one would expect

Each point is part of the model, and most are one side of an equivalence that is proved.

- A database without entries cannot be opened, and an empty datum at the end of the file cannot be read: seeking to the
  end of the region is refused (`CitrusRoundTrip.EmptyDoesNotOpen`, `CitrusRoundTrip.RoundTrip`).
- A serialization replaces hash values by residues, and a second one after more entries were added takes these for hash
  values: keys can get lost (`CitrusTwice.SecondRoundTrip`, `CitrusTwice.KeyLost`).
- A text table and its compiled form differ for overlong words and data, for a CR between two things to read on a line,
  which ends a line for the plain scan only, and for keys in upper case when case matters (`CitrusRefinement.Refinement`,
  `CitrusText.CrIrrelevantIff`, `CitrusRefinement.CaseSensitive`). The scanners over white space and words look at one byte
  behind the text before they look at the length.
- An unresolved `tc=` reference at the very end of a record loses the last character of its name, because a colon is put
  back that was never there (`GetcapExpand.Exact`, `GetcapExpand.Untidy`).
- `fts_open` without arguments prepares a walk whose first read uses a node that was never filled in; the model promises
  a usable walk only with arguments. The path of an empty directory that is given with a slash at its end loses the
  slash in its postorder visit. Both are in the contracts of `FtsWalk.Open` and in `FtsTree.Kept`.
- `heap_new` with an increment of one leads to a store behind the array at the first insertion.
- `evSetTimer` leaves the mode of a timer as it is in the memory it gets. In EV_TMR_RATE mode an idle timer is due earlier
  than its expiry, and is only rescheduled then; `EvIdle.Life` shows that its function is called at the right time in
  both modes. `evResetIdleTimer` changes the record of the timer even when it refuses the times.
- `evCreate` leaves the Last sets as they are, so that deselecting can make the count of ready bits negative; the loop
  repairs that. The account is therefore kept as an inequality.
- `meminit` does not check its sizes against each other (`MemStates.RoomyIff`).
- `strvisx` with VIS_NOSLASH cannot be decoded (`VisDecode.DecodableIff`), and neither can `strsvisx` in C style with
  certain extra characters (`VisDecode.DecodableWithIff`).
- A piece of a message that is nearly 2 to the 32 bytes long wraps the sum around that tells `MD5_Update` whether it
  fills the block (`Md5.Context.Update`).
- `cgetset` keeps the length of the record before white space was stripped from it, so that the length that `getent`
  returns for it can exceed that of the string; the model returns strings.
- `wcstol` and `wcstoul` take a prefix 0x even when no hexadecimal digit follows, and then find no number at all, where
  the C standard has them find a zero (`Wcstol.IsoIff`).
- The key of the cache of converters is cut to PATH_MAX - 1 characters, although each of the two names in it may be that
  long, so that pairs of long names share a converter (`CitrusIconv.ToldApartIff`).

## Model

| member | source | states |
|---|---|---|
| CitrusRoundTrip.RoundTrip | sylixos_base/libcextern/libcextern/citrus/citrus_db.c:99-183 | In the file of a factory to which entries were only added, looking up a key with one locator until it fails gives exactly the data added under it, in the order of adding, for every key, if and only if the datum of one entry, determined by the residues, is not empty: the one in the last slot, because the reader cannot seek to the end of the file |
| CitrusRoundTrip.RoundTripFor | sylixos_base/libcextern/libcextern/citrus/citrus_db.c:99-183 | The same for entries with any hash values: moreover every entry must be stored under the residue of its key |
| CitrusRoundTrip.KeyRoundTrip | sylixos_base/libcextern/libcextern/citrus/citrus_db.c:99-183 | The same for one key: it gets back its data if and only if its entries are stored under its residue and behind none of its data is there nothing but empty data |
| CitrusRoundTrip.LookupAll | sylixos_base/libcextern/libcextern/citrus/citrus_db.c:99-183 | A program opens the file and calls the lookup with one locator until it fails: every call ends, and what it has then is all that was added under the key exactly under that condition, with ENOENT at the end |
| CitrusSlots.LastSlot | sylixos_base/libcextern/libcextern/citrus/citrus_db_factory.c:291-315 | The entry in the last slot is the first with the last residue if there is one, and else the last that is not the first of its residue |
| CitrusTwice.SecondRoundTrip | sylixos_base/libcextern/libcextern/citrus/citrus_db_factory.c:293-294 | From the second file of a factory that got more entries after the first every key gets back its data if and only if for every entry of the first file the hash value has the same residue in both tables, and the last datum is not empty |
| CitrusTwice.KeyLost | sylixos_base/libcextern/libcextern/citrus/citrus_db_factory.c:293-294 | With the hash values 0 and 3, and 5 in the second file, the second key is lost |
| CitrusTwice.SerializeTwice | sylixos_base/libcextern/libcextern/citrus/citrus_db_factory.c:271-353 | Serializing, adding and serializing again writes the file in which the earlier entries have the residues of the first as their hash values |
| CitrusRoundTrip.SimpleLookup | sylixos_base/libcextern/libcextern/citrus/citrus_db.c:99-183 | A lookup without a locator ends, and gives the datum of the first entry with the key that is stored under its residue, ENOENT when there is none, and EFTYPE when its datum is empty and nothing but empty data is behind it |
| CitrusRoundTrip.EntriesKept | sylixos_base/libcextern/libcextern/citrus/citrus_db.c:300-340 | Reading the slots one after the other gives every pair that was added, each as often as it was added, or EFTYPE for a slot exactly when its datum and all behind it are empty; any other index gives EINVAL |
| CitrusRoundTrip.ImageOpens | sylixos_base/libcextern/libcextern/citrus/citrus_db.c:58-91 | A file written for at least one entry is accepted by the reader |
| CitrusRoundTrip.EmptyDoesNotOpen | sylixos_base/libcextern/libcextern/citrus/citrus_db.c:75-76 | The file written for no entries is refused: its directory begins where the file ends, and that is no position to seek to |
| CitrusRoundTrip.AllReadable | sylixos_base/libcextern/libcextern/citrus/citrus_db_factory.c:317-349 | Every datum begins before the end of the file exactly when the last one written is not empty |
| CitrusRoundTrip.FetchableIff | sylixos_base/libcextern/libcextern/citrus/citrus_db.c:168-177 | No more is fetched under a key than was added, and all of it exactly when every entry with the key is reached and can be read |
| CitrusRoundTrip.ReadableIff | sylixos_base/libcextern/libcextern/citrus/citrus_db_factory.c:317-349 | A datum begins before the end of the file exactly when it or one in a later slot is not empty |
| CitrusRoundTrip.ViewValid | sylixos_base/libcextern/libcextern/citrus/citrus_db_factory.c:317-349 | What the writer stores is, seen through the offsets of the reader, the chained table that it was made from |
| CitrusRoundTrip.HeaderStored | sylixos_base/libcextern/libcextern/citrus/citrus_db_factory.c:262-269 | The header in the file: the magic, the number of entries at byte 8, and at byte 12 where the directory begins, at byte 16 |
| CitrusRoundTrip.SlotStored | sylixos_base/libcextern/libcextern/citrus/citrus_db_factory.c:326-347 | Slot s in the file: at byte 16 + 24 s the residue, the next entry, offset and size of the key, offset and size of the datum, and both lie where these say |
| CitrusChain.Store.CollectAll | sylixos_base/libcextern/libcextern/citrus/citrus_db.c:99-183 | On a valid table one locator collects, for any number of calls, the data under the key in order and nothing else |
| CitrusChain.View.WalkChain | sylixos_base/libcextern/libcextern/citrus/citrus_db.c:132-182 | The loop that follows the offsets ends, and stops at the first entry of the chain that has the key |
| CitrusChain.ChainKeepsKey | sylixos_base/libcextern/libcextern/citrus/citrus_db.c:141-154 | Skipping to the next entry of the same residue skips no entry with the key |
| CitrusChain.Store.FirstLookup | sylixos_base/libcextern/libcextern/citrus/citrus_db.c:118-131 | A fresh lookup finds the first entry with the key from the home slot, and leaves the locator behind it |
| CitrusChain.Store.StaysNowhere | sylixos_base/libcextern/libcextern/citrus/citrus_db.c:118-122 | A locator at the end of its chain finds nothing, and stays there |
| CitrusDb.Open | sylixos_base/libcextern/libcextern/citrus/citrus_db.c:58-91 | Accepts a region exactly when size, magic and directory fit, with EFTYPE otherwise |
| CitrusDb.StrnEqualIs | sylixos_base/libcextern/libcextern/citrus/citrus_db.c:71-73 | The magic fits exactly when both agree up to the first NUL or in all eight bytes |
| CitrusDb.Lookup | sylixos_base/libcextern/libcextern/citrus/citrus_db.c:99-183 | The imperative lookup gives the result and leaves the locator as the functions say that the proofs are about |
| CitrusDb.GetEntry | sylixos_base/libcextern/libcextern/citrus/citrus_db.c:300-340 | Key and datum of a slot, or the error for a bad index or a malformed entry |
| CitrusDbFactory.Factory.Serialize | sylixos_base/libcextern/libcextern/citrus/citrus_db_factory.c:271-353 | The region holds the image of the added pairs, arranged by their hash values, which become their residues; for no entries just the header; behind the computed size nothing changes |
| CitrusDbFactory.Factory.Add | sylixos_base/libcextern/libcextern/citrus/citrus_db_factory.c:117-142 | Appends the pair with the hash value of its key |
| CitrusDbFactory.Factory.AssignSlots | sylixos_base/libcextern/libcextern/citrus/citrus_db_factory.c:291-315 | Both passes: every slot gets an entry, with the successor, slot and residue that the arrangement requires |
| CitrusDbFactory.Factory.ResolveConflict | sylixos_base/libcextern/libcextern/citrus/citrus_db_factory.c:302-315 | An entry without a slot goes to the first free slot behind the cursor and to the end of the chain of its residue |
| CitrusDbFactory.Factory.PlaceHomes | sylixos_base/libcextern/libcextern/citrus/citrus_db_factory.c:291-300 | The first pass puts the first entry of every residue into its home slot and no other entry anywhere |
| CitrusDbFactory.Factory.DumpTable | sylixos_base/libcextern/libcextern/citrus/citrus_db_factory.c:317-349 | Writes header, directory and tables in slot order, exactly the bytes of the image |
| CitrusDbFactory.DumpStep | sylixos_base/libcextern/libcextern/citrus/citrus_db_factory.c:326-347 | Writing one slot extends the directory, the key table and the data table by that slot and touches nothing else |
| CitrusDbFactory.SlottedSizes | sylixos_base/libcextern/libcextern/citrus/citrus_db_factory.c:217-228 | The computed size does not depend on the slot order |
| CitrusDbFactory.Factory.HashedValues | sylixos_base/libcextern/libcextern/citrus/citrus_db_factory.c:128-128 | As long as entries were only added their hash values are those of the keys |
| CitrusSlots.FreeSlot | sylixos_base/libcextern/libcextern/citrus/citrus_db_factory.c:303-315 | The cursor of the second pass never runs past the table: while an entry has no slot, one at or behind the cursor is free |
| CitrusSlots.AllPlaced | sylixos_base/libcextern/libcextern/citrus/citrus_db_factory.c:291-315 | After both passes every slot is filled, and as required |
| CitrusSlots.EverySlotUsed | sylixos_base/libcextern/libcextern/citrus/citrus_db_factory.c:291-315 | Every entry has a slot |
| CitrusSlots.AssignmentUnique | sylixos_base/libcextern/libcextern/citrus/citrus_db_factory.c:291-315 | The requirements on the arrangement leave no choice: there is only one |
| CitrusSlots.HomeSlot | sylixos_base/libcextern/libcextern/citrus/citrus_db.c:124-128 | The home slot of a residue holds an entry of that residue exactly when there is one, and then the first |
| CitrusSlots.HomeInOwnSlot | sylixos_base/libcextern/libcextern/citrus/citrus_db_factory.c:291-300 | A first entry of a residue is in the slot of its residue |
| CitrusSlots.ChainIsNext | sylixos_base/libcextern/libcextern/citrus/citrus_db_factory.c:306-309 | The chain of an entry leads to the next entry of the same residue in the order of adding, or ends |
| CitrusImage.Tiling | sylixos_base/libcextern/libcextern/citrus/citrus_db_factory.c:317-349 | Header, directory, key table and data table tile the file, with padding between them and without overlap or gap |
| CitrusImage.FileSizeIsTotal | sylixos_base/libcextern/libcextern/citrus/citrus_db_factory.c:217-228 | The size of what is written is the size computed before |
| CitrusImage.Alignment | sylixos_base/libcextern/libcextern/citrus/citrus_db_factory.c:111-115 | The key table, the data table and every datum begin on a 16-byte boundary |
| CitrusImage.KeyInTable | sylixos_base/libcextern/libcextern/citrus/citrus_db_factory.c:336-342 | Every key lies where the sum of the earlier key sizes says |
| CitrusImage.DataInTable | sylixos_base/libcextern/libcextern/citrus/citrus_db_factory.c:338-346 | Every datum lies where the sum of the earlier padded data sizes says |
| CitrusImage.CeilToFormula | sylixos_base/libcextern/libcextern/citrus/citrus_db_factory.c:111-115 | The rounding formula gives the least multiple of 16 that is not smaller |
| CitrusHash.HashIgnoresCase | sylixos_base/libcextern/libcextern/citrus/citrus_db_hash.c:53-71 | Keys that differ in case only have the same hash value |
| CitrusHash.Std | sylixos_base/libcextern/libcextern/citrus/citrus_db_hash.c:53-71 | The loop computes the recursion on 32-bit words that the other lemmas are about, a value of 28 bits |
| CitrusHash.FoldIs | sylixos_base/libcextern/libcextern/citrus/citrus_db_hash.c:63-67 | The four top bits come around to the bits 4 to 7 |
| CitrusHash.AddedIs | sylixos_base/libcextern/libcextern/citrus/citrus_db_hash.c:61-62 | The value is multiplied by 16 before a character is added |
| CitrusHash.HashOfGb | sylixos_base/libcextern/libcextern/citrus/citrus_db_hash.c:53-71 | The hash value of GB18030 is 0xd54b300 |
| Octets.Be32RoundTrip | sylixos_base/libcextern/libcextern/citrus/citrus_db_factory.c:245-251 | A word written big-endian is read back |
| Octets.WordAtIs | sylixos_base/libcextern/libcextern/citrus/citrus_db_factory.c:245-251 | The high-order byte of a stored word comes first |
| CitrusRefinement.Refinement | sylixos_base/libcextern/libcextern/citrus/citrus_lookup.c:332-356 | Ignoring case, every key is looked up alike in the compiled database and in the text if and only if no line has a missing or overlong word, and the word of every line has the same string under it in the lines that end in LF, cut to the buffer of the compiler, as in those that CR ends as well |
| CitrusRefinement.AlikeIfFits | sylixos_base/libcextern/libcextern/citrus/citrus_lookup.c:332-356 | For a text without a CR between two things to read on a line that condition is that no line has a missing or overlong word or overlong data that a lookup finds |
| CitrusRefinement.CaseSensitive | sylixos_base/libcextern/libcextern/citrus/citrus_lookup.c:332-356 | Without ignoring case both forms agree on a key in lower case exactly when they do ignoring case, and on another one exactly when the text does not have it |
| CitrusRefinement.WordDecides | sylixos_base/libcextern/libcextern/citrus/citrus_lookup.c:332-356 | If all words fit, the word of a line is looked up alike exactly when both readings of the lines have the same string under it |
| CitrusRefinement.DbAnswers | sylixos_base/libcextern/libcextern/citrus/citrus_lookup.c:117-129 | A lookup in a compiled database ends and gives the first datum compiled for the key |
| CitrusRefinement.TextAnswers | sylixos_base/libcextern/libcextern/citrus/citrus_lookup.c:222-243 | A lookup in the text gives the data of the first line whose word is the key up to case |
| CitrusRefinement.CompiledIs | sylixos_base/libcextern/libcextern/citrus/citrus_lookup_factory.c:55-82 | The compiler adds, line by line, what the plain scan sees on the lines |
| CitrusRefinement.SameFound | sylixos_base/libcextern/libcextern/citrus/citrus_lookup_factory.c:55-82 | With words that fit, database and text find an entry for the same keys, and the same one |
| CitrusRefinement.AlikeAgrees | sylixos_base/libcextern/libcextern/citrus/citrus_lookup.c:332-356 | If all words are read alike, every key is looked up alike |
| CitrusRefinement.BadWord | sylixos_base/libcextern/libcextern/citrus/citrus_lookup_factory.c:66-74 | A word that does not fit is itself a key that is looked up differently |
| CitrusText.CrIrrelevantIff | sylixos_base/libcextern/libcextern/citrus/citrus_memstream.c:45-68 | Whether CR ends lines makes no difference exactly when on every line the first piece between CRs with anything on it is the last with something to read |
| CitrusText.PiecesIff | sylixos_base/libcextern/libcextern/citrus/citrus_memstream.c:45-68 | A line read piece by piece gives no less than read as one line, and the same exactly under that condition |
| CitrusText.SameLine | sylixos_base/libcextern/libcextern/citrus/citrus_memstream.c:87-99 | The compiler and the plain scan find the same word and data on a line, although they trim it in a different order |
| CitrusText.FindFromIs | sylixos_base/libcextern/libcextern/citrus/citrus_memstream.c:72-116 | Scanning line by line finds the first of all lines with the key |
| CitrusText.CommentAtIs | sylixos_base/libcextern/libcextern/citrus/citrus_memstream.c:87-91 | A comment begins at the first # of a line |
| CitrusText.CommentUnread | sylixos_base/libcextern/libcextern/citrus/citrus_lookup_factory.c:61-64 | What stands behind the first # of a line changes nothing for the plain scan or the compiler |
| CitrusText.NoCommentRead | sylixos_base/libcextern/libcextern/citrus/citrus_memstream.c:87-91 | No word and no data of the lines of a text have a # in them |
| CitrusText.CommentNotFound | sylixos_base/libcextern/libcextern/citrus/citrus_memstream.c:72-116 | No key with a # is found in any text |
| CitrusText.LineEndIs | sylixos_base/libcextern/libcextern/citrus/citrus_memstream.c:45-68 | A line ends at the first LF, or CR where that counts |
| CitrusMemstream.Memstream.MatchLine | sylixos_base/libcextern/libcextern/citrus/citrus_memstream.c:72-116 | The data of the next line whose word is the key up to case; comments are no part of lines (`CitrusText.NoCommentRead`) |
| CitrusMemstream.Memstream.GetLine | sylixos_base/libcextern/libcextern/citrus/citrus_memstream.c:45-68 | The next line, ended by LF or CR or the end of the region |
| CitrusMemstream.Memstream.Seek | sylixos_base/libcextern/libcextern/citrus/citrus_memstream.h:95-118 | Any position before the end of the region is accepted, and the end is not |
| CitrusMemstream.Memstream.GetRegion | sylixos_base/libcextern/libcextern/citrus/citrus_memstream.h:143-158 | The next bytes, or nothing and no move when there are too few |
| CitrusBcs.WsEndIs | sylixos_base/libcextern/libcextern/citrus/citrus_bcs.c:111-123 | The scan stops at the first byte that is no white space |
| CitrusBcs.WordEndIs | sylixos_base/libcextern/libcextern/citrus/citrus_bcs.c:126-138 | The scan stops at the first white space or NUL |
| CitrusBcs.TrimEndIs | sylixos_base/libcextern/libcextern/citrus/citrus_bcs.c:141-149 | Trimming leaves no white space at the end and takes away nothing else |
| CitrusBcs.StrnCaseEqual | sylixos_base/libcextern/libcextern/citrus/citrus_bcs.c:67-83 | Equality of the first characters up to case |
| CitrusBcs.LowerTwice | sylixos_base/libcextern/libcextern/citrus/citrus_bcs.c:152-161 | Conversion to lower case is idempotent |
| CitrusLookup.SeqOpen | sylixos_base/libcextern/libcextern/citrus/citrus_lookup.c:270-293 | The database is used when it opens, the text when there is no database file, and a malformed database is an error |
| CitrusLookup.Handle.SeqLookup | sylixos_base/libcextern/libcextern/citrus/citrus_lookup.c:311-316 | The datum under the key as the open form finds it, and the state of the handle after the call |
| CitrusLookup.LookupSimple | sylixos_base/libcextern/libcextern/citrus/citrus_lookup.c:332-356 | The buffer gets the string found, cut off to its size, or stays as it is |
| CitrusLookupFactory.Convert | sylixos_base/libcextern/libcextern/citrus/citrus_lookup_factory.c:99-127 | The output is the database image of the lines of the text |
| CitrusLookupFactory.ConvertLine | sylixos_base/libcextern/libcextern/citrus/citrus_lookup_factory.c:55-82 | One line adds its lower-case word with its data, or nothing |
| FtsWalk.Walk | sylixos_base/libcextern/libcextern/gen/fts.c:322-515 | Reading a walk of at most 32767 directories to the end shows exactly the depth-first listing, for every finite file system, cycles included |
| FtsWalk.ReadAll | sylixos_base/libcextern/libcextern/gen/fts.c:322-515 | Reading ends, and shows the events that were to come, up to the first that stops the walk |
| FtsWalk.Fts.Read | sylixos_base/libcextern/libcextern/gen/fts.c:322-515 | Each read shows the next event of the listing, in node, path and level, and leaves exactly the rest to come |
| FtsWalk.Open | sylixos_base/libcextern/libcextern/gen/fts.c:104-220 | With arguments the listing of all of them is to come; an empty argument is refused |
| FtsWalk.Fts.Begin | sylixos_base/libcextern/libcextern/gen/fts.c:184-192 | The dummy node makes the first read go to the first root |
| FtsWalk.Fts.Descend | sylixos_base/libcextern/libcextern/gen/fts.c:372-422 | From the preorder visit of a directory the walk goes to its first entry, or to its postorder visit if there is nothing to show |
| FtsWalk.Fts.GoOn | sylixos_base/libcextern/libcextern/gen/fts.c:424-470 | After a node the walk goes to the next one in the list of the directory |
| FtsWalk.Fts.GoOnRoot | sylixos_base/libcextern/libcextern/gen/fts.c:425-440 | After a root the walk goes to the next root, whose path is loaded anew |
| FtsWalk.Fts.Ascend | sylixos_base/libcextern/libcextern/gen/fts.c:472-515 | Behind the last node comes the postorder visit of the directory, and behind the last root the end |
| FtsWalk.Fts.Build | sylixos_base/libcextern/libcextern/gen/fts.c:624-900 | The list of the entries that are to be shown, in order, classified and with room for their paths; unreadable and too deep directories are told apart |
| FtsWalk.Fts.PutPath | sylixos_base/libcextern/libcextern/gen/fts.c:466-469 | The path buffer holds the path of the node that is returned |
| FtsWalk.MaxArgLen | sylixos_base/libcextern/libcextern/gen/fts.c:1177-1188 | Longer than every argument |
| FtsTree.World.NeverStopped | sylixos_base/libcextern/libcextern/gen/fts.c:964-976 | On a chain of distinct directories the level is less than their number, so a walk of at most 32767 directories is never stopped |
| FtsTree.World.Paired | sylixos_base/libcextern/libcextern/gen/fts.c:322-515 | Every visit before a directory has, on the same level and under the same path up to a slash at its end, its visit behind it or its report as unreadable, with only deeper events between them, and every such visit or report has its beginning |
| FtsTree.NothingCut | sylixos_base/libcextern/libcextern/gen/fts.c:322-515 | An unstopped listing is shown in full |
| FtsContents.ShownAre | sylixos_base/libcextern/libcextern/gen/fts.c:747-747 | The names shown are those read, in order and as often as they occur, without . and .. unless FTS_SEEDOT is given |
| FtsContents.ListingContents | sylixos_base/libcextern/libcextern/gen/fts.c:322-515 | In an unstopped listing the first visits on the level of the roots are the arguments, and behind the first visit of every directory that can be read, on a device that may be entered, come, on the next level, exactly one first visit of each name shown, in order, under the path of the directory and the name, in the class that stat or lstat gives |
| FtsContents.Contents | sylixos_base/libcextern/libcextern/gen/fts.c:322-515 | The same for the entries of one directory |
| FtsContents.EntriesOnce | sylixos_base/libcextern/libcextern/gen/fts.c:424-470 | The first visits on the level of a list of names: one for each name |
| FtsContents.ListingCycles | sylixos_base/libcextern/libcextern/gen/fts.c:964-976 | In every listing a directory is marked as a cycle exactly when one of the directories above it is the same, by device and inode |
| FtsContents.ClassIs | sylixos_base/libcextern/libcextern/gen/fts.c:902-983 | Regular files are F, links SL, others DEFAULT, missing ones NS or SLNONE, and directories DOT for . and .. below the roots, and D or DC else |
| FtsContents.PathIs | sylixos_base/libcextern/libcextern/gen/fts.c:466-469 | The path of an entry: that of the directory with one slash, and the name |
| FtsStack.MoveOn | sylixos_base/libcextern/libcextern/gen/fts.c:424-470 | The events to come after a node begin with the next node of its level |
| FtsStack.GoUp | sylixos_base/libcextern/libcextern/gen/fts.c:472-515 | The events to come after the last node of a level begin with the postorder visit of the directory |
| FtsStack.GoDown | sylixos_base/libcextern/libcextern/gen/fts.c:372-422 | The events to come inside a directory begin with its first entry |
| FtsShape.ShapeDown | sylixos_base/libcextern/libcextern/gen/fts.c:372-422 | The linked nodes keep their shape when the walk goes down: parents, levels, and no node in two places |
| FtsShape.ShapeOn | sylixos_base/libcextern/libcextern/gen/fts.c:424-470 | They keep it when the walk goes on |
| FtsShape.ShapeUp | sylixos_base/libcextern/libcextern/gen/fts.c:472-515 | They keep it when the walk goes up |
| FtsNodes.FtsStat | sylixos_base/libcextern/libcextern/gen/fts.c:902-983 | The class of an entry; a directory that is its own ancestor is a cycle, and fts_cycle is that ancestor |
| FtsNodes.FindAbove | sylixos_base/libcextern/libcextern/gen/fts.c:970-975 | An ancestor with the same device and inode is found exactly when there is one |
| FtsNodes.Pow2 | sylixos_base/libcextern/libcextern/gen/fts.c:1096-1114 | The bit tricks give the least power of two that is not smaller |
| FtsNodes.Palloc | sylixos_base/libcextern/libcextern/gen/fts.c:1122-1143 | A larger buffer with the same contents, whose length is the least power of two that is large enough |
| Getcap.ExpansionMeans | sylixos_base/libcextern/libcextern/gen/getcap.c:502-625 | In a tidy record cgetcap finds, for every capability and type, what is found by searching the fields from left to right and descending into the record at each reference, cancellation included |
| Getcap.FailureMeans | sylixos_base/libcextern/libcextern/gen/getcap.c:268-273 | Expansion ends, and it returns -3 exactly when there is a chain of more than 32 references |
| Getcap.GetEnt | sylixos_base/libcextern/libcextern/gen/getcap.c:241-648 | The record for a name in the first file that has one, expanded, or the error |
| GetcapExpand.FindsFirst | sylixos_base/libcextern/libcextern/gen/getcap.c:475-489 | For a plain name the record found is the first, over files and then over records, that is neither empty nor begins with # and has the name among its names; none is found exactly when there is no such record |
| Getcap.ExpandRecord | sylixos_base/libcextern/libcextern/gen/getcap.c:502-625 | Splicing records in place gives the text of the expanded fields |
| Getcap.Splice | sylixos_base/libcextern/libcextern/gen/getcap.c:609-615 | The two moves put a text in the place of another one and keep what is around it |
| Getcap.PutBack | sylixos_base/libcextern/libcextern/gen/getcap.c:555-559 | The overwritten colon is put back, whether there was one or not |
| Getcap.CGetCap | sylixos_base/libcextern/libcextern/gen/getcap.c:147-188 | The loops find the value of the first field with the name and type, unless an earlier one cancels it |
| GetcapExpand.Meaning | sylixos_base/libcextern/libcextern/gen/getcap.c:502-625 | The expanded fields mean what the record with its references means |
| GetcapExpand.Exact | sylixos_base/libcextern/libcextern/gen/getcap.c:555-559 | The expansion is the faithful one if and only if no unresolved reference stands at the very end of a record |
| GetcapExpand.Untidy | sylixos_base/libcextern/libcextern/gen/getcap.c:555-559 | If the only reference of a record stands at its end and cannot be resolved, the capability that its field is, is lost with the last character |
| GetcapExpand.FailsWhenDeep | sylixos_base/libcextern/libcextern/gen/getcap.c:268-273 | Expansion fails exactly when references go more than 32 deep |
| GetcapExpand.ReferenceIs | sylixos_base/libcextern/libcextern/gen/getcap.c:505-541 | The fields that are references, and those that end them: tc= and a name, tc@ and tc=@ |
| GetcapExpand.SelfReference | sylixos_base/libcextern/libcextern/gen/getcap.c:268-273 | A record that refers to itself begins chains of every length |
| Getcap.TidyIfPlain | sylixos_base/libcextern/libcextern/gen/getcap.c:555-559 | Records whose last field is no reference are tidy, and a colon at the end is enough for that |
| Getcap.ColonEndsPlain | sylixos_base/libcextern/libcextern/gen/getcap.c:555-559 | A record that ends with a colon has no reference at its very end |
| GetcapSplice.Replace | sylixos_base/libcextern/libcextern/gen/getcap.c:563-622 | Replacing a reference in the text does not change what comes of the record |
| GetcapSplice.Leave | sylixos_base/libcextern/libcextern/gen/getcap.c:555-560 | Nor does leaving an unresolved one |
| GetcapSplice.Abandon | sylixos_base/libcextern/libcextern/gen/getcap.c:544-551 | A reference that goes too deep makes the record fail |
| GetcapSplice.Complete | sylixos_base/libcextern/libcextern/gen/getcap.c:519-523 | Without further references the text is the expansion |
| GetcapFields.CapIsSearch | sylixos_base/libcextern/libcextern/gen/getcap.c:147-188 | The position found is that of the value in the first field with a verdict |
| GetcapFields.FieldSays | sylixos_base/libcextern/libcextern/gen/getcap.c:147-188 | A field cancels a capability exactly when a @ follows its name, or its type, and has exactly the string behind name and type as its value otherwise; a flag is its name alone |
| GetcapFields.SearchIs | sylixos_base/libcextern/libcextern/gen/getcap.c:147-188 | The first field with a verdict decides, and none does exactly when none has one |
| GetcapFields.FieldsOfRender | sylixos_base/libcextern/libcextern/gen/getcap.c:147-188 | Fields that are written with colons are read back |
| GetcapFields.RenderOfFields | sylixos_base/libcextern/libcextern/gen/getcap.c:147-188 | Every record is what its fields are written as |
| GetcapMatch.CGetMatch | sylixos_base/libcextern/libcextern/gen/getcap.c:689-725 | The comparison loop decides the specification of the match |
| GetcapMatch.MatchesNames | sylixos_base/libcextern/libcextern/gen/getcap.c:689-725 | A name without separators matches exactly when it is one of the names of the record |
| Md5.DigestOf | sylixos_base/libcextern/libcextern/dst/md5_dgst.c:98-215 | The digest of a message does not depend on the pieces in which it comes, as long as the sum of a length and of what is left of the bytes before does not wrap around, and is that of the message padded as in sections 3.1 and 3.2 of RFC 1321 |
| Md5.Context.Update | sylixos_base/libcextern/libcextern/dst/md5_dgst.c:98-215 | The context stands for the bytes fed before and the piece, with counters of 8 times their number modulo 2 to the 64, exactly when nothing was left in the buffer or the sum of what was left and of the length does not wrap around |
| Md5.Context.Final | sylixos_base/libcextern/libcextern/dst/md5_dgst.c:303-357 | The digest of what was fed |
| Md5.CountBits | sylixos_base/libcextern/libcextern/dst/md5_dgst.c:109-115 | The two halves of the bit count, with carry |
| Md5.ChainIsAfter | sylixos_base/libcextern/libcextern/dst/md5_dgst.c:168-198 | Before the padding the blocks are those of the message |
| Md5Message.DigestIs | sylixos_base/libcextern/libcextern/dst/md5_dgst.c:303-357 | The digest is sixteen bytes: A, B, C and D after the last block of the padded message, the low-order byte of each first |
| Md5Message.ChainOfPadded | sylixos_base/libcextern/libcextern/dst/md5_dgst.c:303-357 | The blocks compressed are those of the message, a byte 0x80, fewer than 64 zeros, and eight bytes for the number of bits, low-order byte first |
| Md5Message.CanBePadded | sylixos_base/libcextern/libcextern/dst/md5_dgst.c:303-357 | Every message has such a padding |
| Md5Message.BlockIs | sylixos_base/libcextern/libcextern/dst/md5_dgst.c:168-198 | The sixteen numbers of a block are those of its bytes, four at a time, low-order byte first |
| Md5Message.BeginsWith | sylixos_base/libcextern/libcextern/dst/md5_dgst.c:88-96 | The chain begins with the words of section 3.3 of RFC 1321 |
| Md5.Context.PadMessage | sylixos_base/libcextern/libcextern/dst/md5_dgst.c:313-341 | The first padding byte, and a block of its own when there is no room for the length |
| Md5.Context.PadLength | sylixos_base/libcextern/libcextern/dst/md5_dgst.c:342-346 | Zeros up to the length and the length complete the last block of the padded message |
| Md5.Context.TopUp | sylixos_base/libcextern/libcextern/dst/md5_dgst.c:123-138 | Bytes that fill up the block complete it as the block of the message |
| Md5.Context.AddShort | sylixos_base/libcextern/libcextern/dst/md5_dgst.c:139-166 | Bytes that do not fill it are kept, words and partial word |
| Md5.Context.AddBlocks | sylixos_base/libcextern/libcextern/dst/md5_dgst.c:168-214 | Whole blocks are compressed, and the rest is kept |
| Md5Words.C2L | sylixos_base/libcextern/libcextern/dst/md5_locl.h:74-78 | Four bytes make a word, the first one lowest |
| Md5Words.PC2L | sylixos_base/libcextern/libcextern/dst/md5_locl.h:80-89 | A word that holds some bytes is filled up |
| Md5Words.C2LP | sylixos_base/libcextern/libcextern/dst/md5_locl.h:91-100 | A word of fewer than four bytes, taken from the last one on |
| Md5Words.PC2LP | sylixos_base/libcextern/libcextern/dst/md5_locl.h:102-112 | More bytes for a word that does not get full |
| Md5Words.PartIsOr | sylixos_base/libcextern/libcextern/dst/md5_locl.h:91-100 | The order in which the bytes are put into the word makes no difference |
| Md5Words.L2CRoundTrip | sylixos_base/libcextern/libcextern/dst/md5_locl.h:114-118 | Writing a word out takes back packing its bytes |
| EvHeap.Heap.Insert | sylixos_base/libcextern/libcextern/isc/heap.c:147-163 | The heap stays in order, every element has its own position as index, and the elements are those before and the new one |
| EvHeap.Heap.Delete | sylixos_base/libcextern/libcextern/isc/heap.c:165-188 | Deletion from any position takes away exactly that element, and order and indices hold; a bad position changes nothing |
| EvHeap.Heap.Increased | sylixos_base/libcextern/libcextern/isc/heap.c:190-200 | After an element got an earlier time, order and indices are restored |
| EvHeap.Heap.Decreased | sylixos_base/libcextern/libcextern/isc/heap.c:202-212 | After an element got a later time, order and indices are restored |
| EvHeap.Heap.FloatUp | sylixos_base/libcextern/libcextern/isc/heap.c:107-121 | From a heap with one free position and an element in hand that is not after the children there, a valid heap |
| EvHeap.Heap.SinkDown | sylixos_base/libcextern/libcextern/isc/heap.c:123-145 | From one whose element in hand is not before the parent there, a valid heap |
| EvHeap.Heap.FirstIsEarliest | sylixos_base/libcextern/libcextern/isc/heap.c:214-222 | No element is due before the first |
| EvHeap.Heap.FoundByIndex | sylixos_base/libcextern/libcextern/isc/ev_timers.c:257-258 | A timer is in the heap exactly when the element at its own index is that timer |
| EvHeap.Heap.constructor | sylixos_base/libcextern/libcextern/isc/heap.c:54-76 | A new heap is empty; with an increment of one the first insertion would store behind the array |
| EvHeapOrder.StepUp | sylixos_base/libcextern/libcextern/isc/heap.c:111-117 | Exchanging an element with its later parent leaves the order broken towards the next parent at most |
| EvHeapOrder.StepDown | sylixos_base/libcextern/libcextern/isc/heap.c:129-140 | Exchanging an element with its sooner child leaves the order broken towards the next children at most |
| EvHeapOrder.Earliest | sylixos_base/libcextern/libcextern/isc/heap.c:107-145 | In an ordered heap nothing is due before position 1 |
| EvTime.Add | sylixos_base/libcextern/libcextern/isc/ev_timers.c:82-93 | The sum in nanoseconds, normalised |
| EvTime.Sub | sylixos_base/libcextern/libcextern/isc/ev_timers.c:95-107 | The difference in nanoseconds, normalised |
| EvTime.CmpIs | sylixos_base/libcextern/libcextern/isc/ev_timers.c:109-116 | The comparison is that of the nanoseconds |
| EvTime.SubThenAdd | sylixos_base/libcextern/libcextern/isc/ev_timers.c:82-107 | Sums and differences cancel exactly |
| EvTimers.Timers.SetTimer | sylixos_base/libcextern/libcextern/isc/ev_timers.c:180-238 | A valid request adds one timer with the given times, now for the time zero; an invalid one changes nothing |
| EvTimers.Timers.ClearTimer | sylixos_base/libcextern/libcextern/isc/ev_timers.c:240-270 | A timer is taken out, but one that is being dispatched only loses its interval; ENOENT for what is not in the heap |
| EvTimers.Timers.ConfigTimer | sylixos_base/libcextern/libcextern/isc/ev_timers.c:272-295 | The mode is set for a known word, with the error otherwise |
| EvTimers.Timers.ResetTimer | sylixos_base/libcextern/libcextern/isc/ev_timers.c:297-354 | The timer has the new times and the heap is in order again, or the error and nothing changed |
| EvTimers.Timers.Drop | sylixos_base/libcextern/libcextern/isc/eventlib.c:612-640 | A timer without interval is removed, another one is due its interval after its due time or after the last event, by its mode |
| EvTimers.Timers.SetIdleTimer | sylixos_base/libcextern/libcextern/isc/ev_timers.c:357-384 | The idle timer is due when its time has passed since the last event |
| EvTimers.Timers.ResetIdleTimer | sylixos_base/libcextern/libcextern/isc/ev_timers.c:395-413 | The record of the idle timer changes, and the timer is due when its time has passed since the last event, unless the times are refused |
| EvTimers.Timers.Dispatch | sylixos_base/libcextern/libcextern/isc/eventlib.c:478-588 | An idle timer calls its function and goes exactly when the time allowed has passed since the last touch; otherwise it is due at the last touch plus that time, unless its mode is EV_TMR_RATE |
| EvTimers.LeftOver | sylixos_base/libcextern/libcextern/isc/ev_timers.c:484-511 | The interval left by the timeout is positive, and from the last event on leads to the last touch plus the time allowed |
| EvIdle.Life | sylixos_base/libcextern/libcextern/isc/ev_timers.c:484-511 | Over every run of touches and polls with a clock that does not run backwards, among any other timers, the function of an idle timer is called at the first poll at which the time allowed has passed since the last touch and no other timer comes before it, and not before, in both modes; a poll at which the time has passed always dispatches something |
| EvIdle.PollOnce | sylixos_base/libcextern/libcextern/isc/eventlib.c:612-640 | One poll dispatches one of the earliest timers if it is due; it calls the function exactly when that is the idle timer and the time has passed, and otherwise keeps it due no later than it may expire |
| EvFiles.Files.SelectFD | sylixos_base/libcextern/libcextern/isc/ev_files.c:46-155 | All checks and errors; the registration comes first in both lists, the Next sets are the union of the masks, the masks of a descriptor do not overlap, the maximum is right, and a descriptor used for the first time becomes non-blocking |
| EvFiles.Files.DeselectFD | sylixos_base/libcextern/libcextern/isc/ev_files.c:157-267 | The registration goes from both lists and everything else stays as it should; ready bits that nobody waits for are taken back and uncounted; the mode of the descriptor is as originally once its last registration goes |
| EvFiles.Files.FindFD | sylixos_base/libcextern/libcextern/isc/ev_files.c:269-277 | The first registration of the descriptor with an event of the mask, or none |
| EvFiles.KindsAreBits | sylixos_base/libcextern/libcextern/isc/ev_files.c:139-144 | The bits 1, 2 and 4 of a mask are reading, writing and exceptions |
| EvFiles.Files.RemainingMask | sylixos_base/libcextern/libcextern/isc/ev_files.c:216-226 | The mask that other registrations of the descriptor wait for |
| EvFiles.Files.FindMax | sylixos_base/libcextern/libcextern/isc/ev_files.c:251-257 | The largest descriptor registered |
| EvFiles.Files.Clear | sylixos_base/libcextern/libcextern/isc/ev_files.c:194-249 | The mode, the Next sets and the account of ready bits after a registration has gone |
| EvFiles.Files.constructor | sylixos_base/libcextern/libcextern/isc/eventlib.c:98-116 | A new registry is valid whatever the memory of the Last sets holds |
| EvFiles.WaitingWithout | sylixos_base/libcextern/libcextern/isc/ev_files.c:228-249 | Clearing the bits of the descriptor outside the remaining mask leaves the Next sets the union of the masks |
| EvThreads.TableLeads | sylixos_base/libcextern/libcextern/isc/ev_files.c:131-136 | The list in the table for a descriptor is the list of files without those of other descriptors |
| EvThreads.FdPush | sylixos_base/libcextern/libcextern/isc/ev_files.c:131-136 | Insertion keeps the lists of all descriptors |
| EvThreads.FdUnlink | sylixos_base/libcextern/libcextern/isc/ev_files.c:186-192 | Removal keeps the lists of all descriptors |
| EvThreads.Push | sylixos_base/libcextern/libcextern/isc/ev_files.c:125-129 | Insertion keeps the list of files, in both directions |
| EvThreads.Unlink | sylixos_base/libcextern/libcextern/isc/ev_files.c:178-184 | Removal keeps the list of files, in both directions |
| EvFileList.NextIsPrev | sylixos_base/libcextern/libcextern/isc/ev_files.c:186-192 | The next registration of a descriptor and the previous one are inverse to each other |
| EvModes.Program.Run | sylixos_base/libcextern/libcextern/isc/ev_files.c:46-267 | Over any run of selecting and deselecting, accepted or refused, the registrations are those of a plain list kept beside it, and the non-blocking descriptors are exactly the registered ones and those that were so at the start: with its last registration a descriptor gets its original mode back |
| EvModes.FaithfulPushed | sylixos_base/libcextern/libcextern/isc/ev_files.c:79-98 | The first registration of a descriptor makes it non-blocking and remembers how it was, further ones change neither |
| EvModes.FaithfulWithout | sylixos_base/libcextern/libcextern/isc/ev_files.c:194-215 | Only the withdrawal of the last registration of a descriptor gives it back its original mode |
| EvModes.TakenIs | sylixos_base/libcextern/libcextern/isc/ev_files.c:93-101 | A selection is refused as one too many exactly when a registration of the same descriptor waits for one of its events |
| EvModes.FaithfulModes | sylixos_base/libcextern/libcextern/isc/ev_files.c:46-267 | What is remembered determines the mode of every descriptor |
| EvLoop.Context.GetNext | sylixos_base/libcextern/libcextern/isc/eventlib.c:212-476 | The outcome is determined: what is queued comes first; without it a timer that is due when something is counted, or the first counted event round the list; else the first answer of pselect that is not passed over decides, by the timers due then and the number of bits it leaves, between a timer, the first ready registration, EWOULDBLOCK, an error, the null event for an interruption, and an abort; ENOENT comes exactly when there is nothing to wait for, and every outcome has its only causes |
| EvLoop.Context.Round | sylixos_base/libcextern/libcextern/isc/eventlib.c:231-475 | The same for one round; another one follows only an interruption that the caller does not want to know, an empty answer while timers wait, or a negative count, which is reset |
| EvLoop.Context.Ask | sylixos_base/libcextern/libcextern/isc/eventlib.c:273-475 | A round in which nothing is counted: ENOENT, waiting for ever, or what the first answer that is not passed over decides |
| EvLoop.Context.Finish | sylixos_base/libcextern/libcextern/isc/eventlib.c:389-475 | The end of a round: a timer that is due, the first counted event, the failed assertion without either, or the reset of the count |
| EvLoop.Context.Refill | sylixos_base/libcextern/libcextern/isc/eventlib.c:273-387 | With an exact pselect the answer that ends the waiting becomes the count and the bits left, among those asked for; EWOULDBLOCK exactly for a poll with no bits and no timer due; every failure gives its outcome |
| EvLoop.Context.WaitForFiles | sylixos_base/libcextern/libcextern/isc/eventlib.c:311-349 | The calls of pselect until there is something, or the first timer is due |
| EvLoop.Context.Choose | sylixos_base/libcextern/libcextern/isc/eventlib.c:390-464 | The first timer if it is due, and otherwise a ready descriptor if events are counted |
| EvScan.FindReady | sylixos_base/libcextern/libcextern/isc/eventlib.c:403-464 | When events are counted one is found in at most one round of the list: the end is never hit twice |
| EvScan.Scan | sylixos_base/libcextern/libcextern/isc/eventlib.c:403-464 | Whatever the Last sets hold: the first ready registration round the list, or the end is hit twice just when none is ready |
| EvScan.SomeoneReady | sylixos_base/libcextern/libcextern/isc/eventlib.c:403-464 | When events are counted, some registration waits for a bit that is set |
| EvScan.Take | sylixos_base/libcextern/libcextern/isc/eventlib.c:434-462 | The events taken are those ready and waited for; the sets and the count lose exactly them |
| Memcluster.Allocator.MemGet | sylixos_base/libcextern/libcextern/isc/memcluster.c:186-361 | A new allocation at an address where none was, and all others as before; free lists, counters and the separation of all pieces hold |
| Memcluster.Allocator.MemPut | sylixos_base/libcextern/libcextern/isc/memcluster.c:369-476 | The allocation ends and all others are as before; the assertions of the code hold |
| Memcluster.Allocator.MemActive | sylixos_base/libcextern/libcextern/isc/memcluster.c:540-550 | True exactly when something is allocated |
| Memcluster.Allocator.Store | sylixos_base/libcextern/libcextern/isc/memcluster.c:186-361 | Whatever a program stores into an allocation, the lists and the state of the allocator stand |
| Memcluster.Allocator.MemInit | sylixos_base/libcextern/libcextern/isc/memcluster.c:135-179 | A second call is refused; after the first nothing is allocated and all lists are empty |
| Memcluster.Allocator.Grow | sylixos_base/libcextern/libcextern/isc/memcluster.c:254-279 | New basic blocks, all on their list |
| Memcluster.Allocator.Cut | sylixos_base/libcextern/libcextern/isc/memcluster.c:291-314 | A block becomes fragments, all on the list of their size, and counted |
| Memcluster.Allocator.Link | sylixos_base/libcextern/libcextern/isc/memcluster.c:294-314 | The loop links pieces one after the other, and the last to the list there was |
| MemStates.AllocationsApart | sylixos_base/libcextern/libcextern/isc/memcluster.c:186-361 | The bytes asked for in two allocations do not overlap, nor do they overlap a free piece |
| MemStates.RoomyIff | sylixos_base/libcextern/libcextern/isc/memcluster.c:291-293 | The sizes given to meminit leave every fragment inside its block exactly when the largest size of a fragment is at most the size of a block |
| MemStates.Taken | sylixos_base/libcextern/libcextern/isc/memcluster.c:329-351 | Taking the first fragment of a list for an allocation keeps everything in order |
| MemStates.Returned | sylixos_base/libcextern/libcextern/isc/memcluster.c:461-474 | Putting an allocation back on the list of its size keeps everything in order |
| MemChunks.CarveSound | sylixos_base/libcextern/libcextern/isc/memcluster.c:254-314 | Pieces cut from unused memory do not overlap anything and lie in their block |
| MemChunks.Quantize | sylixos_base/libcextern/libcextern/isc/memcluster.c:559-580 | The least multiple of the pointer size that is large enough |
| MemLists.ListingCarved | sylixos_base/libcextern/libcextern/isc/memcluster.c:254-314 | New pieces come on the list of their kind and on no other |
| Memcluster.StoredElsewhere | sylixos_base/libcextern/libcextern/isc/memcluster.c:186-361 | A store into an allocation does not reach the links of the free pieces |
| VisDecode.DecodableIff | sylixos_base/libcextern/libcextern/gen/vis.c:375-389 | Different byte strings have different encodings exactly when VIS_HTTPSTYLE is given or VIS_NOSLASH is not |
| VisDecode.RoundTrip | sylixos_base/libcextern/libcextern/gen/vis.c:375-389 | One decoder reads the encoding with backslashes back, whatever the other flags and the bytes are |
| VisDecode.RoundTripWith | sylixos_base/libcextern/libcextern/gen/vis.c:285-319 | It reads that of strsvisx back for every list of extra characters, but for graphic ones in C style |
| VisDecode.DecodableWithIff | sylixos_base/libcextern/libcextern/gen/vis.c:285-319 | For every list of extra characters different byte strings have different encodings, unless VIS_NOSLASH is given without VIS_HTTPSTYLE, exactly when VIS_HTTPSTYLE is given, C style is not, or no code of a byte is also made of codes of graphic characters because its second character is on the list and those behind it are not |
| VisDecode.HarmlessLists | sylixos_base/libcextern/libcextern/gen/vis.c:154-190 | In C style lists without certain 14 characters are harmless, and those with the digit 0, f or v never are |
| VisDecode.DecodableNeeds | sylixos_base/libcextern/libcextern/gen/vis.c:285-319 | If the characters of some code all stand for themselves, as they can with VIS_NOSLASH, two byte strings share an encoding |
| VisDecode.HttpRoundTrip | sylixos_base/libcextern/libcextern/gen/vis.c:119-130 | Another one reads the encoding in HTTP style back |
| VisDecode.FourTimes | sylixos_base/libcextern/libcextern/gen/vis.c:375-389 | The encoding is at most four times as long |
| VisDecode.NoslashCollides | sylixos_base/libcextern/libcextern/gen/vis.c:203-205 | Without backslashes two byte strings share an encoding |
| VisDecode.ShadowCollides | sylixos_base/libcextern/libcextern/gen/vis.c:183-186 | For every code that is hidden behind an extra character two byte strings that share an encoding are given |
| VisDecode.CStyleReads | sylixos_base/libcextern/libcextern/gen/vis.c:174-182 | The short form of a zero byte is never followed by an octal digit |
| VisDecode.SvisReads | sylixos_base/libcextern/libcextern/gen/vis.c:141-212 | The code of one byte is read back as that byte, whatever follows it |
| VisForms.RawIff | sylixos_base/libcextern/libcextern/gen/vis.c:141-150 | A byte stands for itself exactly when it is graphic, and no backslash unless VIS_NOSLASH is given; a space, tab or newline without VIS_SP, VIS_TAB or VIS_NL; or a backspace, bell or carriage return with VIS_SAFE |
| VisForms.UnchangedIff | sylixos_base/libcextern/libcextern/gen/vis.c:375-389 | strvisx leaves a string as it is exactly when each of its bytes stands for itself |
| VisForms.OctalObeyed | sylixos_base/libcextern/libcextern/gen/vis.c:191-195 | With VIS_OCTAL and without VIS_CSTYLE every other byte is three octal digits behind a backslash |
| VisForms.CStyleObeyed | sylixos_base/libcextern/libcextern/gen/vis.c:151-190 | In C style every byte that has a letter is written with it |
| VisForms.OthersMarked | sylixos_base/libcextern/libcextern/gen/vis.c:191-212 | The characters of the forms with ^ and M, and which bytes have digits instead |
| VisForms.HttpObeyed | sylixos_base/libcextern/libcextern/gen/vis.c:119-130 | In HTTP style letters and digits stand for themselves, and all others are a percent sign and two hexadecimal digits |
| Vis.DoSvis | sylixos_base/libcextern/libcextern/gen/vis.c:141-212 | The bytes written through the pointer are the code of the byte, and at most four |
| Vis.DoHvis | sylixos_base/libcextern/libcextern/gen/vis.c:119-130 | The same in HTTP style |
| Vis.StrSVisX | sylixos_base/libcextern/libcextern/gen/vis.c:285-319 | The buffer holds the codes of all bytes and a NUL, and their number is returned |
| Vis.StrVisXInto | sylixos_base/libcextern/libcextern/gen/vis.c:375-389 | The same with the extra characters of the flags only |
| Wcstol.WcsToL | sylixos_base/libcextern/libcextern/locale/_wcstol.h:47-144 | The value of the maximal run of digits after the prefix, held to the range of the type; ERANGE exactly when it was outside; the end behind the run, or the start without digits; EINVAL for a bad base |
| Wcstol.WcsToUL | sylixos_base/libcextern/libcextern/locale/_wcstoul.h:46-120 | The same for unsigned types, with a negative number taken modulo the range |
| Wcstol.IsoIff | sylixos_base/libcextern/libcextern/locale/_wcstol.h:89-94 | The results are those of section 7.24.4.1.2 of ISO/IEC 9899:1999 exactly when no prefix without a hexadecimal digit behind it is taken, for signed and unsigned types: zero and the beginning of the string without a number, and else the value or the limit with ERANGE, and the position behind the number |
| Wcstol.SubjectIs | sylixos_base/libcextern/libcextern/locale/_wcstol.h:73-96 | Where the standard has the number: behind white space and a sign, with a prefix only if a digit follows, and as long as possible |
| Wcstol.SignedIsIso | sylixos_base/libcextern/libcextern/locale/_wcstol.h:98-144 | For the numbers in given places the results are those that the standard allows, and no others |
| Wcstol.CutOff | sylixos_base/libcextern/libcextern/locale/_wcstol.h:101-123 | The comparison with the cutoff foretells exactly whether one more digit leaves the range |
| Wcstol.AddDigit | sylixos_base/libcextern/libcextern/locale/_wcstol.h:119-140 | One more digit, or the limit; no value of the accumulator leaves the type |
| Wcstol.AddUDigit | sylixos_base/libcextern/libcextern/locale/_wcstoul.h:104-112 | The same for unsigned types |
| Wcstol.Limits | sylixos_base/libcextern/libcextern/locale/_wcstol.h:101-110 | The truncating division of the limits, and its correction for negative numbers |
| Wcstol.Start | sylixos_base/libcextern/libcextern/locale/_wcstol.h:73-96 | White space, sign, prefix and base |
| WcsNumber.WcToInt | sylixos_base/libcextern/libcextern/locale/__wctoint.h:32-79 | A value below 10 is that of its digit and one below 36 that of its capital or small letter; -1 exactly for other characters |
| CitrusIconv.Cache.GetShared | sylixos_base/libcextern/libcextern/citrus/citrus_iconv.c:253-293 | If the key is known its entry gets another handle and leaves the unused list, and else a new entry is opened or its error returned, which changes nothing; the converter is for the source asked for, and for a target that agrees with the one asked for as far as the key has it |
| CitrusIconv.Cache.ReleaseShared | sylixos_base/libcextern/libcextern/citrus/citrus_iconv.c:296-318 | An entry without handles goes to the end of the unused list, and what exceeds the limit is closed from the front |
| CitrusIconv.Cache.Evict | sylixos_base/libcextern/libcextern/citrus/citrus_iconv.c:307-314 | What is closed was unused for the longest time, and has no handles |
| CitrusIconv.Cache.Flood | sylixos_base/libcextern/libcextern/citrus/citrus_iconv.c:305-315 | Exactly the oldest entries beyond the limit are closed |
| CitrusIconv.Cache.Search | sylixos_base/libcextern/libcextern/citrus/citrus_iconv.c:266-270 | The entry of the pool with the name, if there is one |
| CitrusIconv.SameConvName | sylixos_base/libcextern/libcextern/citrus/citrus_iconv.c:260-260 | Two pairs of names have one key exactly when the sources are the same and the targets differ at most in what does not fit into the buffer of PATH_MAX characters |
| CitrusIconv.ToldApartIff | sylixos_base/libcextern/libcextern/citrus/citrus_iconv.c:260-260 | A pair of names is told apart from all other pairs exactly when its key leaves a character of that buffer free |
| CitrusIconv.Cache.Open | sylixos_base/libcextern/libcextern/citrus/citrus_iconv.c:325-376 | EINVAL exactly for names with a slash in what fits into PATH_MAX characters; the error of opening when the key has no entry; otherwise a handle for the entry under the key, or a new one, which was opened for the two names if both together are short enough; with an error of the context that error, and pool and queue as after giving the handle back |
| CitrusIconv.Cache.Obtain | sylixos_base/libcextern/libcextern/citrus/citrus_iconv.c:349-356 | Without a slash there is no handle exactly when the key is not known and opening fails |

## Left out

- Md5.Context.Update: what a piece that wraps the sum around leaves in the words of the block is not modelled; the contract says that the context does not stand for the message then.
- Md5.DigestOf: the compression function `md5_block` is a parameter, and the byte order is the portable one, without L_ENDIAN.
- CitrusDb.Lookup: for a malformed region whose chain closes on itself the C loop does not end; the contract is for lookups that end, which those in written files do.
- CitrusRoundTrip.RoundTrip: is about files whose size the 32-bit offsets can express; larger ones are written with offsets that are cut off, as the image says.
- CitrusRefinement.Refinement: is about keys without NUL, as C strings are.
- CitrusLookup.Handle.SeqLookup: only lookups by key; the sequential `seq_next` and the number of entries are not modelled.
- FtsWalk.Open: promises a walk only with arguments; no comparison function, FTS_NOCHDIR, no fts_set, no fts_children, no FTS_NOSTAT shortcut and no whiteouts.
- FtsWalk.Fts.Read: path lengths are not held to 32 bits, in which `FtsNodes.Pow2` is what `fts_pow2` computes, and the relocation of stored pointers in `fts_padjust` is not needed where paths are positions in a buffer.
- Getcap.GetEnt: records come from a database value; reading and joining lines of files, hashed `.db` files and read errors (-2) are not modelled.
- Getcap.CGetCap: capability names have no colon in them.
- Getcap.ExpansionMeans: is about tidy records; `GetcapExpand.Exact` shows that the others are not expanded faithfully. The empty name with the type ':' asks for an empty field, and is not counted as a capability.
- EvHeap.Heap.constructor: requires an increment other than one, for which the first insertion would be outside the array.
- EvTimers.Timers.Dispatch: the function of the user makes no calls of the timer library itself; calls from other places are covered by the methods for them, in any order.
- EvIdle.Life: of the idle timers only one is touched during the run, and no timers are set or cleared but by being dispatched.
- EvTimers.Timers.ClearIdleTimer: the record is not freed.
- EvTime.Cmp: the differences of `time_t` and `long` do not overflow.
- EvFiles.Files.SelectFD: setting O_NONBLOCK succeeds when reading the flags does.
- EvModes.Program.Run: the descriptors stay open, and nobody else changes their modes.
- EvLoop.Context.GetNext: accepted connections, finished streams and waits are queues of numbers; `ev_streams.c`, `ev_connects.c` and `ev_waits.c` are not part of this model.
- Memcluster.Allocator.MemGet: malloc succeeds and answers with memory that is not in use; the lock and the wrap-around of sizes near the end of `size_t` are not modelled.
- Memcluster.Allocator.MemInit: requires that the largest size of a fragment is at most the size of a block, without which fragments would leave their block.
- Memcluster.Allocator.MemPut: is about allocations that are given back once and with their own size, as the interface demands.
- VisDecode.DecodableWithIff: with VIS_NOSLASH and without VIS_HTTPSTYLE, lists of extra characters can make the encoding unique again; `VisDecode.DecodableNeeds` says what that takes at least, and `VisDecode.DecodableIff` settles it for `strvisx`.
- Vis.StrSVisX: ctype functions are those of the C locale; `svis`, `strsvis`, `strvis` and `vis` are variants for single characters and C strings.
- Wcstol.WcsToL: `iswspace` is any predicate that is false of NUL.
- CitrusIconv.Cache.GetShared: opening a converter is an outcome from outside; `open_shared` can also return 0 without an entry, when a module lacks an operation, and then `get_shared` inserts a null pointer.
- Failures of malloc, everywhere, except where an error is part of the result.
- File mapping, module loading, sockets, `fopen`, DNS key files, HMAC and base64: foreign calls or easy members.
- Locale tables, ctype dispatch, basename and dirname, utmp, range search and NSAP text forms: easy members.
- The pivot search of `citrus_csmapper.c`: its text and database forms do not agree by design.
- All AWTK code: glue to libraries that are not shown.
