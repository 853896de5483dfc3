# pahole type tables: a Dafny model

pahole's library turns DWARF into in-memory type tables, writes them out as BTF or CTF, and reads those
back. This project models the parts of it that are hardest to get right and proves what they are for.

* **The CU job queue** (`CuQueue`, `CuWorkers`, `CuInvariant`, `CuRuns`). Decode and steal jobs, the ticket limit and the condition
  variable, as a queue object and as a step relation over every interleaving of any number of workers.
  Proved of all runs: steals in file order and never two at once, the ticket limit, deadlock freedom,
  a bound on the length of runs, that every run can finish, completeness, and equality with the one-worker run.
* **Red-black trees** (`RbTree`, `RbMemory`, `RbHeap`) with parent pointers rewritten in place, and the
  two indexes on top: `Strlist` and the functions by address (`FuncIndex`).
* **The BTF encoder** (`Btf`, `Dwarf`, `BtfIds`, `BtfForms`, `BtfCus`, `BtfEncoder`). It predicts every id before emitting a
  type. Proved: field by field what each tag becomes; the prediction is exact for every table with holes, skipped tags and multi-dimensional
  arrays, so its two consistency errors cannot happen, and the emitted graph unfolds, at every id and to
  every depth, to what the types table unfolds to; over any sequence of CUs, with the declaration tags and
  variables in between, the ids stay as predicted. libbpf is an append-only sequence of types.
* **Function merging** (`TypesMatch`, `SavedFuncs`): loose type equality as equality of normal forms, and
  why comparing every state with the group's first one is enough, and exactly which state a function is written from.
* **The ELF function table** (`ElfFunctions`): in-place compaction by base name, and its search.
* **Reading BTF arrays back** (`BtfArrays`): chains become multi-dimensional arrays again.
* **Struct layout** (`Bitfields`, `Holes`): one normal place for a bitfield from its encodings, where
  `DW_AT_data_bit_offset` is that of section 5.7.6 of DWARF 5, and a hole search that accounts for every bit.
* **Pruning of dwz alternate units** (`HashTags`, `AltUnits`, `AltEvents`, `AltPruning`, `AltLoad`): what a CU's tables
  hold after both files are read, and exactly what pruning takes from them.
* **CTF** (`Words`, `GoBuffer`, `CtfBytes`, `CtfRecords`, `CtfRoundTrip`, `CtfLayout`, `CtfTags`, `CtfWriter`, `CtfLoader`): what
  the record writers append to the growing buffer, byte by byte, the cursor loop that reads it, and the round trip.

`Wrappers` and `Sums` hold an option type and sums over sequences. `dafny verify dfyconfig.toml` checks
everything.

Where the source updates objects in place the model has classes and loops, proved against functions of the
old state; what is promised is then proved of those functions. The trees on the heap are proved on snapshots
of the nodes' fields, described by a tree and a context that are ghost.

## What the proofs found

* **Pruning can drop a tag it should not touch.** Enumerators are hashed without a slot in `tags_table`, and so are
  members unless the CU is known to be C++ (dwarf_loader.c:2955, 3055-3068). While the alternate file is read
  `cu->language` is not set yet (dwarf_loader.c:5425-5439), so this holds for members of every language. Their
  small id stays 0; pruning one writes NULL to slot 0 of that table, whoever owns it. `AltPruning.MainTagLost` says
  exactly when, `AltLoad.MainTagLostExample` gives an input.
* **Pruning can write through a null pointer.** If no tag of either file takes a slot in `tags_table`, the table was
  never allocated, and dropping a member or enumerator writes to it. `AltLoad.DwarfCu.Load` says exactly when, in
  terms of the two files; `NullWriteExample` gives an input.
* **An unaligned DWARF 4 bitfield can land one unit too far.** The byte offset is moved to the aligned unit that
  holds the field and then once more when the offset in the unit overflows (dwarf_loader.c:4702-4708).
  `Bitfields.Member.CacheByteSize` gives the exact condition, `UnalignedExample` an input.
* **`bitfield_offset` is a signed byte** (dwarves.h:1290). In units of more than 16 bytes, as `_BitInt` allows, it cannot
  hold every offset: `CacheByteSize` says when it does, `WideUnitExample` gives a DWARF 5 input. And a unit size
  worked out from a type's bits is eight times too large (dwarf_loader.c:4653): `InferByteSize`, `InferredExample`.
* **The last function by name is never marked ambiguous**: the mark is set when the compaction moves on
  (btf_encoder.c:2670-2677), which it does not do for the last one. `ElfFunctions.LastGoesUnmarked` gives an input. The
  mark also depends on the order of symbols with address 0 (`AmbiguousExactly`).
* **The hole search counts a virtual base class twice**, as itself and as padding, so the alert about sizes is printed
  for a sound struct (`Holes.VirtualBaseAlerts`). On well laid structs `FindHolesAndCheck` says exactly when it is.
* **A CTF struct announces `nr_members` and writes its data members.** Base classes are counted and not written, static
  members written and not counted. The record keeps its members exactly when `CtfTags.HasRoom` holds; beyond the
  room they go behind the record, where the next one overwrites them, or behind the buffer
  (`CtfLoader.StaticMemberLost`, `StaticMembersOverflow`). Where fewer come than announced the record does not come
  back either (`CtfRoundTrip.ComesShort`).
* **A tag without a CTF form shifts all later ids**, and the check for that makes each encode function return before its
  loop while nobody looks at what it returns (ctf_encoder.c:15-24, 174-206): from there on structs, enumerations and
  function types have headers and room, but no members. `CtfWriter.Ctf.EncodeAll`, `CtfLoader.DriftExample`.
* **Arrays beyond 255 dimensions do not come back whole** (`BtfArrays.ArrayRoundTrip`), and exactly those do not. The
  encoder itself never emits one: `dimensions` is a `uint8_t` (dwarves.h:1694) and the DWARF loader stops at 64
  (dwarf_loader.c:2737). The loader meets them only in BTF of another producer.
* **CTF member offsets of 2^32 bits and more do not come back.** The writer splits at bit 32 (libctf.c:359-371),
  the reader joins at bit 16 (ctf_loader.c:294-295). `bit_offset`, all the encoder passes on, is a `uint32_t`
  (dwarves.h:1285, ctf_encoder.c:98-100), so such an offset comes only from another producer of CTF.
* **A size or type of 0xffff in a short CTF header is taken for a full one.** `CtfRoundTrip.RecordRoundTrip` says
  exactly which records survive.
* **Merging does not share every problem.** Each state of a function is merged with the first one only
  (btf_encoder.c:1770), so one in the middle never learns of an unexpected register or uncertain location found
  behind it, and with true signatures may be written all the same; `SavedFuncs.AddSavedFuncs` says exactly from which
  state. The order of states alike in name and in having an address is qsort's choice (`OrderMattersExample`).
* **A float read from CTF gets the wrong type.** The type is in the top byte of its word (ctf.h:104), the loader hands on
  the whole word (ctf_loader.c:225) and an 8-bit field keeps the lowest byte, that of the size in bits.
  `CtfRoundTrip.FloatTypeExactly` says exactly when that comes to the same, `FloatExample` gives a single.
* **`const const void` does not match `const void`**, though `const int` matches `int`:
  `TypesMatch.CoarserReadingExactlyWhen`.
* An enum written to CTF with size 0 is read back with 32 bits, though the DWARF loader leaves none at 0
  (dwarf_loader.c:2934-2937); array index types and the names of pointers are
  written but not read. `CtfRoundTrip.Seen` says what becomes of each record.

## Model

| member | source | states |
|---|---|---|
| `CuQueue.CusQueue.constructor` | dwarf_loader.c:5281-5294 | The queue starts with next id 0 and one decode job per ticket. |
| `CuQueue.CusQueue.Add` | dwarf_loader.c:5065-5073 | Steals go to the head, decodes to the tail; no decode ever gets in front of a steal. |
| `CuQueue.CusQueue.TryDequeue` | dwarf_loader.c:5035-5060 | Takes out the first job that is a decode or the due steal and leaves the rest in order; nothing is returned only when no job qualifies; a queued due steal always wins. |
| `CuQueue.DueStealWins` | dwarf_loader.c:5046-5050 | With steals in front of decodes, stopping at the first decode never skips the due steal. |
| `CuInvariant.InitInv` | dwarf_loader.c:5274-5306 | The invariant holds before any worker has run. |
| `CuInvariant.NextKeepsInv` | dwarf_loader.c:5062-5085 | Every step of every worker keeps the invariant: each decoded and unstolen CU is in exactly one place, no ticket is lost, pending wakeups cover takeable jobs, a due steal waits only for a promised enqueue. |
| `CuInvariant.PostKeepsInv` | dwarf_loader.c:5064-5074 | Adding a job and waking one waiter keeps order, tickets and wakeups. |
| `CuInvariant.GrabKeepsInv` | dwarf_loader.c:5075-5082 | Taking a job, or going to sleep without one, keeps the invariant. |
| `CuInvariant.FetchKeepsInv` | dwarf_loader.c:5118-5156 | Handing out the next CU id, or stopping a worker on an exhausted source, keeps the invariant. |
| `CuInvariant.FinishStealKeepsInv` | dwarf_loader.c:5214-5219 | Logging a finished steal keeps the invariant: it is the due one. |
| `CuInvariant.IncrementKeepsInv` | dwarf_loader.c:5220-5224 | Moving on to the next id makes at most one job takeable, and the worker still owes a wakeup for it. |
| `CuInvariant.StealersExclude` | dwarf_loader.c:4984-4985 | At most one worker is between taking a steal and the increment. |
| `CuRuns.StealsInFileOrder` | dwarf_loader.c:4978-4989 | In every run of every number of workers the stolen ids are 0, 1, 2, ... without a gap, and no two steals overlap. |
| `CuRuns.DecodedCusBounded` | dwarf_loader.c:5242-5272 | In every reachable state jobs queued plus jobs held are the initial limit minus stopped workers, so decoded and unstolen CUs never exceed the limit. |
| `CuRuns.NoDeadlock` | dwarf_loader.c:5062-5085 | Unless all workers have exited, some worker can move without a spurious wakeup, in every reachable state. |
| `CuRuns.FinishedRunIsComplete` | dwarf_loader.c:5194-5235 | When all workers have exited every CU was stolen exactly once, in file order, and only decode jobs are left. |
| `CuRuns.ParallelEqualsSequential` | dwarf_loader.c:5274-5294 | Any finished run steals the same CUs in the same order as a finished one-worker run. |
| `CuRuns.StepUsesWork` | dwarf_loader.c:5186-5230 | Every step but a spurious wakeup uses up work. |
| `CuRuns.RunsAreBounded` | dwarf_loader.c:5186-5230 | A run has at most seven steps per CU plus one per ticket and worker, plus two per spurious wakeup. |
| `CuRuns.EveryRunCanFinish` | dwarf_loader.c:5186-5235 | Every run extends to a finished one, for any file and any number of workers, without a spurious wakeup. |
| `CuRuns.StuckMeansDone` | dwarf_loader.c:5186-5235 | A run no worker can extend has finished the job. |
| `RbTree.InsertFixOrder` | rbtree.c:59-122 | The colour fix after an insertion does not change the in-order sequence. |
| `RbTree.InsertFixRedBlack` | rbtree.c:59-122 | From a tree whose only fault is one red-red edge it makes a red-black tree: black root, no red-red edge, equal black heights. |
| `RbTree.EraseFixOrder` | rbtree.c:124-202 | The colour fix after an erasure does not change the in-order sequence. |
| `RbTree.EraseFixRedBlack` | rbtree.c:124-202 | From a tree with one subtree a black short it makes a red-black tree. |
| `RbTree.RotationOrder` | rbtree.c:13-57 | A rotation keeps the in-order sequence. |
| `RbTree.PlugRedBlack` | rbtree.c:59-122 | A sound subtree in a place of its height makes the whole tree sound. |
| `RbMemory.PlacedAt` | rbtree.c:232-247 | A node that takes over links, colour and the pointers to it represents the same tree with the node exchanged. |
| `RbMemory.SplicedAt` | rbtree.c:251-264 | Unlinking a node with one child leaves the same tree with the child in its place. |
| `RbMemory.RotateLeftAt` | rbtree.c:13-34 | The memory after the pointer writes of a left rotation represents the rotated tree, parent pointers included. |
| `RbMemory.RotateRightAt` | rbtree.c:36-57 | The same for a right rotation. |
| `RbHeap.RbRoot.RotateLeft` | rbtree.c:13-34 | In place: the heap afterwards holds the rotated tree in the same context, all child and parent links consistent. |
| `RbHeap.RbRoot.RotateRight` | rbtree.c:36-57 | The mirror image. |
| `RbHeap.RbRoot.InsertColor` | rbtree.c:59-122 | The while loop of recolourings and rotations computes the fixed tree. |
| `RbHeap.RbRoot.LinkNode` | rbtree.h:150-157 | The new node hangs red, without children, in the hole the descent ended at. |
| `RbHeap.RbRoot.Insert` | rbtree.h:150-157 | Linking and recolouring puts exactly one node into the order, at the hole, and the tree is red-black again. |
| `RbHeap.RbRoot.EraseColor` | rbtree.c:124-202 | The loop that moves a missing black up and settles it computes the fixed tree. |
| `RbHeap.RbRoot.Successor` | rbtree.c:217-219 | The leftmost node of the right subtree. |
| `RbHeap.RbRoot.DetachMin` | rbtree.c:220-230 | The successor is unlinked from its place; the parent to continue from is right even when that is the erased node. |
| `RbHeap.RbRoot.TakePlace` | rbtree.c:232-247 | The successor takes over links and colour of the erased node. |
| `RbHeap.RbRoot.Erase` | rbtree.c:204-269 | Exactly the given node disappears from the in-order sequence; links are consistent and the tree is red-black. |
| `RbHeap.RbRoot.First` | rbtree.c:274-284 | The first node of the order, or null. |
| `RbHeap.RbRoot.Next` | rbtree.c:298-324 | The node after number k of the order, or null after the last. |
| `RbHeap.RbRoot.Walk` | rbtree.c:274-324 | First and then Next until null visits exactly the in-order sequence. |
| `Strings.Trichotomy` | dutil.c:70-81 | strcmp is a total order that is zero on equal strings only. |
| `Strlist.Strlist.Add` | dutil.c:63-96 | A new string goes to the end of the list; one already there leaves everything as it was. |
| `Strlist.Strlist.Descend` | dutil.c:63-82 | The search ends at the entry, or at the hole where it belongs. |
| `Strlist.Strlist.Remove` | dutil.c:158-163 | Exactly the given entry leaves list and tree. |
| `Strlist.Strlist.HasEntry` | dutil.c:165-187 | True exactly for the strings in the list. |
| `Strlist.Strlist.ContentsDistinct` | dutil.c:63-96 | The list never holds a string twice. |
| `FuncIndex.FunctionIndex.Insert` | dwarves.c:631-648 | The function goes behind all that do not start later; the table stays sorted by address. |
| `FuncIndex.FunctionIndex.FindAt` | dwarves.c:1048-1071 | What is returned covers the address; when no function starts inside another the result is that of a linear scan. |
| `FuncIndex.InsertKeepsSorted` | dwarves.c:631-648 | Inserting behind all earlier ones keeps the address order. |
| `FuncIndex.InsertContents` | dwarves.c:631-648 | Insertion adds exactly the one function. |
| `FuncIndex.ScanFinds` | dwarves.c:1048-1071 | With separated functions the covering one is unique. |
| `BtfEncoder.CountsAgree` | btf_encoder.c:3405-3450 | Index minus holes minus skipped plus extra equals the number of ids actually taken, for every table. |
| `BtfEncoder.Encoder.BuildNullAdj` | btf_encoder.c:3482-3511 | The prefix sums of holes, kept only if there is a hole. |
| `BtfEncoder.Encoder.PrecomputeBtfIds` | btf_encoder.c:3405-3450 | Every entry of the id map is the id of the last BTF type the entry will take, or 0 for holes and skipped tags. |
| `BtfEncoder.Encoder.PickIndexType` | btf_encoder.c:3517-3537 | The array index type is the CU's own "int", or the id right after its last type. |
| `BtfCus.IndexIsCalledInt` | btf_encoder.c:3517-3537 | The head of the array index type: "int" unless the CU's own has a size the kernel refuses. |
| `BtfEncoder.Encoder.AddStructType` | btf_encoder.c:1909-1939 | The struct is appended, then its fields one by one with translated types. |
| `BtfEncoder.Encoder.AddEnumType` | btf_encoder.c:1941-1973 | A 32-bit or 64-bit enum by size and option, values truncated when 64-bit enums are off. |
| `BtfEncoder.Encoder.AddFuncProto` | btf_encoder.c:889-946 | Return type, parameters in order, and an unnamed void parameter for an ellipsis. |
| `BtfEncoder.Encoder.AddArrayType` | btf_encoder.c:2037-2065 | One array type per dimension, innermost first, each pointing at the one before; none at all counts as one of no elements. |
| `BtfEncoder.Encoder.EncodeTag` | btf_encoder.c:1995-2084 | The id of the last type appended for a tag, 0 for an unspecified type, an error exactly for a tag without BTF form; and field by field what the type is: INT is signed, bool or neither with the least size if regular and a fake one otherwise, FLOAT only for plain floats with the option on, enumerations by width and option, references through the id map, one array node per dimension. |
| `BtfForms.EmitOneFormed` | btf_encoder.c:1995-2084 | Field by field, without the functions that compute it: what a tag becomes has its kind, name, least size, encoding, values in range and congruent, and its references translated. |
| `BtfForms.EncodableExactly` | btf_encoder.c:506-541 | A tag cannot be written exactly when the encoder has no case for it or, with floats on, it is a float that is not a plain one. |
| `BtfForms.EmitArrayFormed` | btf_encoder.c:2037-2065 | Of an array of D dimensions node k has its element count, the next inner node as element, and the innermost the array's own. |
| `BtfForms.UnitFormed` | btf_encoder.c:3539-3576 | In a CU as emitted every entry has its type at its mapped id; holes and unspecified types have none. |
| `BtfEncoder.Encoder.EncodeEntry` | btf_encoder.c:3539-3576 | The id an entry gets is the predicted one: neither the drift nor the unexpected-emit error is possible. |
| `BtfEncoder.Encoder.EncodeTypes` | btf_encoder.c:3539-3576 | The loop appends exactly the predicted types and fails exactly when some tag has no BTF form. |
| `BtfEncoder.Encoder.FinishIndex` | btf_encoder.c:3578-3586 | When arrays need it and no CU had it, "int" is appended, at the very id the arrays already refer to. |
| `BtfEncoder.Encoder.EncodeEntries` | btf_encoder.c:3452-3586 | The types of a CU: encoding only appends, every id in the id map means in the BTF graph what it meant in the types table, at every depth, through forward references and cycles, every entry has the type its tag should become at its id, and the array index type is settled exactly when the CU has an "int" or an array. |
| `BtfEncoder.Encoder.AddTypeTags` | btf_encoder.c:3588-3624 | Exactly one declaration tag per annotation of a struct, union or typedef, in order, for the id the map gives the type; classes and all other entries are passed over. |
| `BtfEncoder.Encoder.AddVariables` | btf_encoder.c:2885-2908 | Each variable refers to the mapped id of its type, and each of its declaration tags to the variable. |
| `BtfCus.TypeTagsExactly` | btf_encoder.c:3588-3624 | A declaration tag is written exactly for an annotation of a struct, union or typedef, for the id of its entry. |
| `BtfCus.VarAt` | btf_encoder.c:2885-2908 | Where each variable stands, and right behind it its declaration tags for its own id. |
| `BtfEncoder.PlacedExactly` | btf_encoder.c:3588-3624 | Behind the types of a CU as many declaration tags as annotations and nothing else, then every variable with its own, referring to the mapped ids. |
| `BtfCus.FindBaseSound` | btf_encoder.c:3517-3537 | The "int" picked is the first of the table; none is picked only if there is none. |
| `BtfCus.AnnotatedIsMapped` | btf_encoder.c:3607-3614 | A struct, union or typedef always has a mapped id: no annotation is skipped for want of one. |
| `BtfEncoder.Encoder.EncodeCu` | btf_encoder.c:3452-3624 | The ids of the CU are those of the map, each means what its table entry meant and has the type its tag should become after declaration tags and variables are appended too, those stand right behind the types, and the number of ids taken is the one predicted. |
| `BtfEncoder.Encoder.EncodeCus` | btf_encoder.c:3452-3624 | After any sequence of CUs through one encoder each still means what its table meant, entry by entry of the type it should be, at the ids its offset predicts, arrays indexed by the head settled so far; offsets and heads are functions of the CUs. |
| `BtfCus.SettledBy` | btf_encoder.c:3517-3537 | The head of the array index type comes from the first CU that has an "int" or an array. |
| `BtfCus.EveryIndexIsCalledInt` | btf_encoder.c:3517-3586 | In every CU of a file arrays are indexed by a number type, called "int" unless a CU so far has an "int" of a size the kernel refuses. |
| `BtfEncoder.OthersFine` | btf_encoder.c:3588-3624 | Declaration tags and variables refer only to types that are there. |
| `BtfEncoder.MeansStays` | btf_encoder.c:3452-3586 | Later appends change no meaning already there. |
| `BtfEncoder.UnitMeans` | btf_encoder.c:3539-3576 | A graph that holds a CU's emitted types means what the CU's table means. |
| `BtfIds.Unit.SameMeaning` | btf_encoder.c:796-811 | Unfolding the graph from the mapped id equals unfolding the table from the id, to every depth, holes and unspecified types being void. |
| `BtfIds.Unit.SameArray` | btf_encoder.c:2037-2065 | An emitted chain unfolds as the nested one-dimensional arrays of the table entry. |
| `BtfIds.Unit.TypesSlice` | btf_encoder.c:3539-3576 | The types of an entry are where the prediction puts them. |
| `BtfIds.Unit.TypesRefsFine` | btf_encoder.c:796-811 | No emitted type refers beyond the final graph. |
| `BtfIds.EmitOneMeans` | btf_encoder.c:1995-2084 | An emitted type has the tag's head and the translated references, in order. |
| `TypesMatch.Match` | btf_encoder.c:1116-1213 | On graphs whose chains end the comparison ends, and is true exactly when the normal forms are equal. |
| `TypesMatch.MatchProto` | btf_encoder.c:1190-1206 | Prototypes match exactly when counts, return types and all parameters do. |
| `TypesMatch.StructsMatch` | btf_encoder.c:1109-1114 | Structs and unions, declared or defined, match exactly when both are structs or both unions and the names are equal. |
| `TypesMatch.LeavesMatch` | btf_encoder.c:1156-1171 | Typedefs and enumerations of one width match exactly by name, integers and floats by name, size and encoding. |
| `TypesMatch.ReferencesMatch` | btf_encoder.c:1172-1189 | Pointers, qualifiers and type tags match exactly when their targets do, arrays when also the lengths are equal. |
| `TypesMatch.ProtosMatch` | btf_encoder.c:1190-1206 | Prototypes match exactly when return types do and as many parameters, one by one. |
| `TypesMatch.ConstsMatch` | btf_encoder.c:1136-1153 | A const type matches one that is not const exactly when what it qualifies does; void matches only void. |
| `TypesMatch.OthersNeverMatch` | btf_encoder.c:1140-1153 | Distinct types of different kinds, none const, never match; nor do variables, declaration tags and other kinds. |
| `TypesMatch.NormalFormNeedsNoRank` | btf_encoder.c:1116-1213 | The normal form depends on the types alone, not on the witness that their chains end. |
| `TypesMatch.CoarserReadingExactlyWhen` | btf_encoder.c:1140-1153 | Reading any run of consts before void as one const agrees with the code exactly on graphs without const const void. |
| `TypesMatch.ConstConstVoidIsNotConstVoid` | btf_encoder.c:1131-1153 | A graph on which the two readings differ. |
| `SavedFuncs.FuncsMatch` | btf_encoder.c:1215-1254 | True exactly when counts agree and return and parameter types match. |
| `SavedFuncs.AgreeIsEquivalence` | btf_encoder.c:1215-1254 | The comparison is reflexive, symmetric and transitive. |
| `SavedFuncs.Contiguous` | btf_encoder.c:1615-1633 | After sorting, the states of one ELF function form one run. |
| `SavedFuncs.Combine` | btf_encoder.c:1635-1658 | States of one function come out with the same merged flags and nothing else changed; others are left alone. |
| `SavedFuncs.AnchorIsEnough` | btf_encoder.c:1623-1632 | Agreement of every state with the anchor gives agreement of all pairs; with true signatures, of all pairs that have an address. |
| `SavedFuncs.MergeGroup` | btf_encoder.c:1746-1834 | The anchor ends with exactly the flags of the whole group, and inconsistent exactly when some comparable state disagrees with it; any other state ends distrusted exactly when it or one before it in the group is. |
| `SavedFuncs.ClearAnchorVouches` | btf_encoder.c:1746-1834 | An anchor that ends clear means the whole group agrees pairwise. |
| `SavedFuncs.SelectCanonical` | btf_encoder.c:1717-1744 | The first state at a symbol without changed parameters, else the first at a symbol, else the first. |
| `SavedFuncs.CanonicalIsBest` | btf_encoder.c:1717-1744 | That is the first state at a symbol whose ABI is as declared, or to be rewritten; without any the first at a symbol; without any the first. |
| `SavedFuncs.AddTrueSignature` | btf_encoder.c:1673-1707 | The first eligible state of the function, or the end of its group with none eligible before it. |
| `SavedFuncs.Decide` | btf_encoder.c:1746-1834 | A group is written exactly when nothing in it forbids it, from its canonical state. |
| `SavedFuncs.WrittenExactly` | btf_encoder.c:1786-1834 | The condition spelled out: no state with an unexpected register, uncertain location or reordered parameter, one prototype if asked for, the chosen state's ABI kept, no ambiguous address. |
| `SavedFuncs.AddSavedFuncs` | btf_encoder.c:1746-1834 | Each ELF function yields at most one BTF function. With true signatures one comes from every group with a state at a symbol of its own, of unambiguous address, that it was merged with nothing distrusted, and from the first such state; every other group comes exactly when it may be written, from its canonical state. |
| `SavedFuncs.GroupOf` | btf_encoder.c:1615-1633 | Every sorted state is in one group, that of all states of its function. |
| `SavedFuncs.OrderMattersExample` | btf_encoder.c:1635-1658 | Three states of one function, one with an unexpected register: written or not depending on the order of the last two. |
| `SavedFuncs.WrittenMeansOnePrototype` | btf_encoder.c:1746-1834 | With inconsistent prototypes skipped, a written function has one prototype throughout its states. |
| `ElfFunctions.FunctionTable.CollectEntries` | btf_encoder.c:2611-2647 | One entry per accepted function symbol, named by what precedes the first dot. |
| `ElfFunctions.FunctionTable.HasAmbiguousAddress` | btf_encoder.c:1344-1362 | True exactly when a symbol with a nonzero address is followed by one with another address. |
| `ElfFunctions.AmbiguousExactly` | btf_encoder.c:1344-1362 | Not ambiguous are exactly a run of zero addresses with one address after it; without zeros, exactly the lists with a single address. |
| `ElfFunctions.FunctionTable.Dedup` | btf_encoder.c:2658-2680 | In place: names strictly ascending, each entry holding exactly the symbols its name had, no name lost; every entry but the last carries its ambiguity mark, the last never does. |
| `ElfFunctions.FunctionTable.Collect` | btf_encoder.c:2590-2702 | The finished table: strictly sorted, each entry exactly the multiset of accepted symbols with its base name, every accepted symbol in it, and all but the last marked exactly when ambiguous. |
| `ElfFunctions.LastGoesUnmarked` | btf_encoder.c:2670-2680 | A table whose last function has two addresses and no mark. |
| `ElfFunctions.FunctionTable.Find` | btf_encoder.c:1859-1865 | The binary search finds a name exactly when the table has it. |
| `ElfFunctions.FunctionTable.FindCollected` | btf_encoder.c:1859-1865 | In a collected table a name is found exactly when some function symbol is called that, or that and a dot and more, and has neither ".cold" nor ".part" anywhere; and with the multiset of all of them. |
| `ElfFunctions.SuffixAnywhere` | btf_encoder.c:1316-1342 | A name is no function of its own exactly when ".cold" or ".part" occurs anywhere in it. |
| `ElfFunctions.BaseExactly` | btf_encoder.c:2611-2647 | The base name is all there is before the first dot. |
| `ElfFunctions.SymsOfExactly` | btf_encoder.c:2611-2647 | The symbols of a base name are the accepted ones that have it, under their full names, with their addresses. |
| `ElfFunctions.MergeHolds` | btf_encoder.c:2664-2669 | Moving one more symbol of the last name keeps every entry exact. |
| `ElfFunctions.NextHolds` | btf_encoder.c:2670-2677 | Moving up an entry of a later name keeps order and contents. |
| `ElfFunctions.SymsInOrder` | btf_encoder.c:2649-2654 | Sorting does not change which symbols a name has. |
| `BtfArrays.Cu.CreateNewArray` | btf_loader.c:221-272 | An inner array loaded before is absorbed unless it already has 255 dimensions. |
| `BtfArrays.Cu.LoadTypes` | btf_loader.c:596-685 | The table after reading the types in id order, and every size in it told from the BTF types. |
| `BtfArrays.ChainLoads` | btf_loader.c:230-268 | What a chain of any number of dimensions is loaded as: everything up to 255 dimensions, the first (D-1) mod 255 + 1 of them beyond. |
| `BtfArrays.ArrayRoundTrip` | btf_loader.c:230-268 | The emitted chain loads as the original dimension list and element type exactly when there are at most 255 dimensions. |
| `BtfArrays.EncodedArrayLoads` | btf_encoder.c:2037-2065 | A DWARF array of a non-array type, encoded with its CU and read back, keeps dimensions and element type. |
| `BtfArrays.NrEntries` | dwarves.c:1140-1149 | The product of the dimensions in machine words. |
| `BtfArrays.LoadedChain` | btf_loader.c:230-268 | Every loaded array stands for a chain of 1 to 255 nodes with just those element counts. |
| `BtfArrays.SizeKept` | dwarves.c:1151-1198 | A type that has a size in the table without absorption has the same one in the loaded table. |
| `BtfArrays.SizeNotMadeUp` | dwarves.c:1151-1198 | A size in the loaded table is the size without absorption. |
| `BtfArrays.SizesAgree` | dwarves.c:1194-1195 | Absorbing inner arrays gives every type the same size, or none, as leaving them apart. |
| `BtfArrays.SizeLaw` | dwarves.c:1151-1198 | In the loaded table numbers, enumerations and structs have their own size (4 for an enumeration of none, 0 for a struct of one byte and no members), forward declarations 0, pointers and prototypes an address; typedefs, qualifiers and type tags their target's; arrays that of their element times its count in machine words; nothing else has one. |
| `BtfArrays.SizeIsUnique` | dwarves.c:1151-1198 | A type has one size at most. |
| `Bitfields.NormalPlaceUnique` | dwarf_loader.c:4702-4708 | Unit-aligned, inside its unit and numbers fitting together is one place per bit offset. |
| `Bitfields.Member.InferByteSize` | dwarf_loader.c:4639-4655 | The size of the type if it has one, the whole bytes of its bits; else the least multiple of 8 not below the bits intended, taken as bytes. |
| `Bitfields.InferredExample` | dwarf_loader.c:4639-4655 | A type "int" without a size is given 32 bytes. |
| `Bitfields.ReachedExactly` | dwarf_loader.c:4686-4701 | The bit offset computed is the one stated exactly when the signed byte holds the raw offset, or what it becomes one unit earlier. |
| `Bitfields.Member.CacheByteSize` | dwarf_loader.c:4620-4721 | For every member: plain, static and unknown units as in the source; the bit offset of a bitfield is the stated one exactly when the signed byte holds the raw offset; its place is normalised exactly when the signed byte holds its offset from the aligned unit, reduced to the unit; in units of up to 16 bytes that is when it starts in the aligned unit, as every DWARF 5 one does, and otherwise the byte offset is one unit too far. |
| `Bitfields.Member.Unpack` | dwarf_loader.c:4670-4701 | Bit offset and offset from the aligned unit, for every raw offset. |
| `Bitfields.SpelledOut` | dwarf_loader.c:4670-4708 | A field starts where its debug information says, as far as the signed byte reaches; one that starts in the aligned unit of its byte lies in that unit. |
| `Bitfields.Member.Align` | dwarf_loader.c:4702-4708 | The alignment step gives the normal place exactly when the signed byte holds the reduced offset; what it gives otherwise in units of up to 16 bytes. |
| `Bitfields.Member.FixupBtf` | btf_loader.c:827-841 | A BTF offset gives the normal place exactly when the signed byte holds the offset in the unit, always so in units of up to 16 bytes. |
| `Bitfields.Member.FixupCtf` | ctf_loader.c:607-667 | By type: the unit is what an enumeration's bits, rounded if a power of two, or a base type's name imply; a member of any other size becomes a bitfield in its normal place, all others plain fields. |
| `Bitfields.PowerOf2Exactly` | dutil.h:49-52 | Exactly the powers of two are taken for ones. |
| `Bitfields.EncodingsAgree` | dwarf_loader.c:4670-4708 | One field in the three encodings ends in the same, normalised place. |
| `Bitfields.UnalignedExample` | dwarf_loader.c:4702-4708 | A DWARF 4 field with an unaligned byte offset, as the code computes it: the result is not normalised. |
| `Bitfields.WideUnitExample` | dwarf_loader.c:4696-4708 | A DWARF 5 field 128 bits into a unit of 32 bytes, as the code computes it: the result is not normalised. |
| `Holes.Struct.Measure` | dwarves.c:1587-1642 | The gap in front of a member and the new running values. |
| `Holes.Struct.ScanMembers` | dwarves.c:1579-1661 | Each member gets the gap to the next one that takes part; members are changed in nothing else. |
| `Holes.Struct.FindHoles` | dwarves.c:1563-1673 | All holes, pre-holes and paddings; the counts are those of the holes recorded; static members, virtual and empty base classes are not touched, the others in nothing but their holes; nothing on a second call or on a union. |
| `Holes.NormalisedIsShaped` | dwarf_loader.c:4702-4708 | A bitfield in the normal place the loaders compute meets what the hole search asks of it. |
| `Holes.GapIsExact` | dwarves.c:1600-1621 | On well laid members the gap found is the whole distance, split into bytes and bits. |
| `Holes.HoleIsTheGap` | dwarves.c:1600-1654 | A member's recorded holes are the exact distance from its end to the next member that is not static nor a virtual or empty base class. |
| `Holes.BitsConserved` | dwarves.c:1563-1673 | Member bits, gaps and paddings add up to the size of the struct. |
| `Holes.RecordedSum` | dwarves.c:1644-1650 | The recorded holes add up to the gaps found. |
| `Holes.RecordedCount` | dwarves.c:1644-1661 | The counts of holes and bit holes are those of the members with one behind them, and of the one in front. |
| `Holes.PrintedSum` | dwarves_fprintf.c:1843-1901 | What is printed for the members is their bits, their holes, and the bits and old holes of members that take no part. |
| `Holes.Struct.SizeDiff` | dwarves_fprintf.c:1707-2066 | The difference of the size to the sums as printed: positive holes only, a base class cut short by a negative one. |
| `Holes.Struct.FindHolesAndCheck` | dwarves_fprintf.c:2063-2073 | On every well laid struct the difference is minus what was printed for members that take no part (and old pre-holes when none does); the alert comes exactly when that is not zero and the struct has a member that is not static; never when all members take part. |
| `Holes.VirtualBaseAlerts` | dwarves_fprintf.c:2063-2073 | A sound struct with a virtual base class, as search and sums treat it: the alert is printed. |
| `HashTags.Bucket` | hash.h:19-22 | The top bits of a 64-bit product are a bucket number. |
| `HashTags.HashTable.Hash` | dwarf_loader.c:275-280 | The tag goes to the head of its chain. |
| `HashTags.HashTable.Find` | dwarf_loader.c:282-298 | The newest tag with the offset, never one for offset 0. |
| `AltUnits.AltPus.Register` | dwarf_loader.c:5402-5417 | The ranges registered are exactly those from the first DIE to the next header of the units that have one, sorted and disjoint, none hit; the duplicate check never fires. |
| `AltUnits.AltPus.Add` | dwarf_loader.c:3557-3571 | One more range at the end of the growing array. |
| `AltUnits.AltPus.Find` | dwarf_loader.c:323-341 | The binary search finds the range that contains the offset, or there is none. |
| `AltUnits.AltPus.IsHit` | dwarf_loader.c:343-347 | True exactly for offsets in a unit that was hit. |
| `AltUnits.AltPus.MarkHit` | dwarf_loader.c:770-775 | A unit is hit exactly when a marked offset lies in it; offsets outside all units are ignored. |
| `AltUnits.RegisteredSorted` | dwarf_loader.c:5402-5417 | Units handed out one after the other give sorted disjoint ranges. |
| `AltUnits.RegisteredExactly` | dwarf_loader.c:5402-5417 | A unit is registered exactly for a header with a DIE, from that DIE up to the next header. |
| `AltUnits.LiveExactly` | dwarf_loader.c:370-395 | An offset is spared exactly when it shares its unit with a marked one. |
| `AltEvents.ChainMarked` | dwarf_loader.c:2577-2626 | An annotation chain marks exactly the links from the first one into the alternate file on. |
| `AltEvents.MarkedExactly` | dwarf_loader.c:770-775 | What a file marks is exactly what its DIEs aim at: an explicit reference, a partial import below the nesting limit, an annotation from the first alternate link on. |
| `AltEvents.EntriesExactly` | dwarf_loader.c:275-298 | The alternate tables are given exactly the DIEs of the alternate file and the annotations from the first alternate link on, of either file. |
| `AltEvents.LatestIsLast` | dwarf_loader.c:282-298 | The entry a lookup should give is one behind which there is none of that offset and sort. |
| `AltEvents.LookupIsLatest` | dwarf_loader.c:275-298 | Once both files are read, a lookup in the alternate tables gives the latest type, or other tag, the alternate file has at the offset, and nothing if it has none or the offset is 0. |
| `AltEvents.TagFound` | dwarf_loader.c:275-298 | In particular every tag of the alternate file is found with its kind unless one of another kind has its offset. |
| `AltEvents.AddValid` | dwarf_loader.c:3672-3690 | Adding a tag keeps every hashed tag in its bucket and every one with a slot in that slot. |
| `AltLoad.DwarfCu.AddTag` | dwarf_loader.c:3672-3690 | Types, functions and other tags get the next slot of their table and its number as small id, the rest none and 0; a lookup in the table of where it is read finds it. |
| `AltLoad.DwarfCu.SetAttrType` | dwarf_loader.c:794-841 | References inside the alternate file are noted as such but mark nothing; an explicit one marks its target, and nothing else. |
| `AltLoad.DwarfCu.ProcessImportedUnit` | dwarf_loader.c:3583-3638 | Imports from or within the alternate file mark the unit, up to the nesting limit; others are read inline. |
| `AltLoad.DwarfCu.AddAnnotations` | dwarf_loader.c:2577-2626 | From the first alternate link on, the rest of an annotation chain is marked and enters the alternate tables; what comes before enters the main ones. |
| `AltLoad.DwarfCu.LoadDies` | dwarf_loader.c:5384-5468 | Registration and both passes: units, hash tables and slots are those of the two files' DIEs, in order, and what is marked is told from the DIEs one by one. |
| `AltLoad.DwarfCu.PruneTypesIn` | dwarf_loader.c:418-425 | One chain: what survives stays in order, the slots of the rest are emptied. |
| `AltLoad.DwarfCu.PruneTagsIn` | dwarf_loader.c:426-438 | The same for tags; functions also leave the address tree; it fails exactly when a member or enumerator dies and tags_table was never allocated. |
| `AltLoad.DwarfCu.Prune` | dwarf_loader.c:405-447 | All chains, failing on the same condition; nothing at all when no unit is registered. |
| `AltLoad.DwarfCu.Load` | dwarf_loader.c:5384-5468 | From the two files alone: exactly when the null write happens; otherwise a lookup gives the latest alternate tag of an offset that shares a unit with one aimed at, the very tag it gave before, and else nothing. For every explicit reference of either file, every partial alternate import below the limit and every annotation from the first alternate link on whose target is in a registered unit, that unit is hit, the target is found as before and keeps its slots. Slots are emptied exactly for the alternate tags that die, and slot 0 of tags_table when a member or enumerator does; main tables keep their tags. |
| `AltLoad.NullWriteExample` | dwarf_loader.c:435-436 | One unit with one enumeration nobody refers to, no tag with a slot, as the code treats it: the null write happens. |
| `AltLoad.MainTagLostExample` | dwarf_loader.c:426-438 | The same with one tag in the main file: it is lost. |
| `AltPruning.ExplicitTargetSpared` | dwarf_loader.c:828-840 | Whatever a DIE of either file aims at inside a unit is spared. |
| `AltPruning.AimedIsHit` | dwarf_loader.c:828-840 | The unit of everything a DIE aims at is hit. |
| `AltPruning.LiveStays` | dwarf_loader.c:405-447 | Everything at an offset in a unit that is hit is found as before and keeps its slots, slot 0 of tags_table excepted when a member or enumerator dies. |
| `AltPruning.AllSparedSurvive` | dwarf_loader.c:379-404 | The offsets that survive are exactly those that share a unit with one a DIE aims at. |
| `AltPruning.FoundAfter` | dwarf_loader.c:282-298 | A lookup after pruning gives what it gave before for survivors, and nothing for the rest. |
| `AltPruning.TypeFate` | dwarf_loader.c:418-425 | A types_table slot becomes NULL exactly when it held an alternate type whose unit was never hit. |
| `AltPruning.FunctionFate` | dwarf_loader.c:431-434 | The same for functions. |
| `AltPruning.TagFate` | dwarf_loader.c:435-436 | The same for other tags, except that slot 0 is also emptied when a member or enumerator of the alternate file dies. |
| `AltPruning.MainTagLost` | dwarf_loader.c:426-438 | A tag that is not the alternate file's loses its slot exactly when it has slot 0 and such a child dies. |
| `AltPruning.ChildDiesExactly` | dwarf_loader.c:426-438 | Such a child dies exactly when the alternate file has a member or enumerator at an offset that is not spared. |
| `GoBuffer.Buffer.Allocate` | gobuffer.c:34-55 | Room at the end; what is there stays, wherever the buffer moves to. |
| `GoBuffer.Buffer.Add` | gobuffer.c:57-66 | The bytes appended, and nothing else changed. |
| `CtfBytes.Reader.GetPut16` | libctf.c:39-46 | A 16-bit word written in one byte order and read on a host of any other, swapped if need be, comes back. |
| `CtfBytes.Reader.GetPut32` | libctf.c:48-58 | The same for 32-bit words. |
| `CtfBytes.InfoRoundTrip` | ctf.h:68-73 | Kind and length come back from the packed word exactly when the length is at most 1023. |
| `CtfBytes.NumberWord` | ctf.h:91-96 | The three fields of a number's word, and what the macros read of them. |
| `CtfBytes.PutBytes` | libctf.c:48-58 | Each byte of a word, in either order. |
| `CtfBytes.FullOffsetRoundTrip` | ctf_loader.c:279-301 | The offset of a full member comes back exactly when it is below 2^32. |
| `CtfRoundTrip.ShortMembersSuffice` | ctf.h:137-143 | A struct below 8192 bytes has no member offset that 16 bits cannot hold. |
| `CtfRoundTrip.MembersRead` | ctf_loader.c:279-325 | Members come back with offsets modulo 2^16, or joined as the reader joins them. |
| `CtfRoundTrip.StructTurn` | ctf_loader.c:327-376 | Structs and unions, over short and full headers and members. |
| `CtfRoundTrip.FtypeReads` | ctf_loader.c:37-81 | Parameters in order, the ellipsis as the unspecified flag, padding skipped. |
| `CtfRoundTrip.RecordReads` | ctf_loader.c:488-546 | Whatever follows it, a record that fits is read back and the cursor lands right behind it. |
| `CtfRoundTrip.SectionReads` | ctf_loader.c:476-549 | A section of records that fit is read back in order, and not a byte is left. |
| `CtfRoundTrip.RecordRoundTrip` | ctf_loader.c:476-549 | A record alone in a section comes back exactly when it fits the format: sizes and types below 0xffff in short headers, at most 1023 entries, all announced members written, no void parameter, offsets within the member kind. |
| `CtfRoundTrip.ComesShort` | ctf_loader.c:327-350 | A struct with fewer members written than announced never comes back as it was. |
| `CtfRoundTrip.NumberComesBack` | ctf_loader.c:201-232 | Whoever packed it: an integer comes back with attributes and bits; a float with its bits, but with the low byte of the word for its type. |
| `CtfRoundTrip.FloatTypeExactly` | ctf_loader.c:218-232 | A float's type comes back exactly when it is the low byte of its size in bits. |
| `CtfRoundTrip.FloatExample` | ctf_loader.c:218-232 | A 32-bit single, type 1, is read as type 32. |
| `CtfRecords.BadKindExactly` | ctf_loader.c:476-549 | A record is rejected exactly when its kind is beyond 13; kind 0 leaves a hole in the table. |
| `CtfLayout.RecordLaidOut` | ctf.h:50-160 | Offset by offset, byte by byte in either order, where each field of each kind of record is. |
| `CtfWriter.Ctf.AddHeader` | libctf.c:373-398 | A header, and room of unknown contents for what follows. |
| `CtfWriter.Ctf.PutParameters` | libctf.c:400-406 | Parameters one after the other at the moving position; what is before and behind stays. |
| `CtfWriter.Ctf.StructureTypeEncode` | ctf_encoder.c:81-104 | Announces nr_members, writes the data members whatever their number: the record ends up with those there is room for and a gap of unknown contents for those that do not come; it goes beyond the buffer exactly when stated, which takes more members than announced; with an id that is not the table index nothing is written. |
| `CtfWriter.Ctf.PutMembers` | ctf_encoder.c:93-102 | All data members one after the other, past the room too; not ok means past the buffer. |
| `CtfTags.KeepsMembers` | ctf_encoder.c:81-104 | The record has all data members exactly when they do not outnumber nr_members. |
| `CtfTags.PlainStructExact` | dwarves.c:1312-1319 | Without base classes and static members there is exactly the room needed. |
| `CtfTags.AllChildrenWritten` | ctf_encoder.c:93-102 | Nothing but data members, or nothing but enumerators: all are written, in order. |
| `CtfWriter.Ctf.AddFunctionType` | libctf.c:408-434 | Header, rounded room, and the ellipsis mark behind the parameters. |
| `CtfWriter.Ctf.SubroutineTypeEncode` | ctf_encoder.c:129-143 | Appends exactly the function record; only the gap from rounding is left to chance, or with another id all parameters. |
| `CtfWriter.Ctf.EnumerationTypeEncode` | ctf_encoder.c:145-172 | Appends exactly the enum record of the enumerators, or with another id its header and room; nested functions are neither counted nor written. |
| `CtfWriter.Ctf.Encode` | ctf_encoder.c:174-206 | Appends exactly the part of the tag with the next id; a tag without a case takes no id and adds nothing. |
| `CtfWriter.Ctf.EncodeAll` | ctf_encoder.c:277-278 | Appends the parts in order; a tag gets its table index as id exactly when no tag before it lacks a form, and from the first that does the loops of all records stay out. |
| `CtfTags.IdsKeepUp` | ctf_encoder.c:15-24 | As many ids as tags exactly when every tag has a form. |
| `CtfTags.LaidIsSection` | ctf_encoder.c:277-278 | When every tag has a form the parts are a section of their records. |
| `CtfLoader.Cu.LoadFtype` | ctf_loader.c:37-81 | The loop over parameter types. |
| `CtfLoader.Cu.CreateMembers` | ctf_loader.c:279-325 | The loops over short and full members. |
| `CtfLoader.Cu.LoadTypes` | ctf_loader.c:476-549 | The cursor loop computes the reading of the whole section. |
| `CtfLoader.WriteThenRead` | ctf_loader.c:476-549 | Tags with a form and with room whose records fit, written and loaded, are the same records in order, whatever the byte orders. |
| `CtfLoader.StaticMemberLost` | ctf_encoder.c:93-102 | A struct with one static member, written and loaded as the code does it, comes back without members. |
| `CtfLoader.StaticMembersOverflow` | ctf_encoder.c:93-102 | 1024 static members go beyond the buffer. |
| `CtfLoader.DriftExample` | ctf_encoder.c:15-24 | Behind a tag without a form table entry 2 gets id 1. |
## Left out

- The abort and error path of the job queue (dwarf_loader.c:5236-5239), failing pthread_create and failing allocations everywhere: runs are error free.
- libdw, libelf, libbpf, zlib and libc: DIEs and symbols are data, BTF is an append-only sequence of types, qsort is any order in which the keys ascend.
- `btf__dedup`, distillation and ELF writing, the functions appended once all CUs are encoded, section entries and kfunc sets; which variables pass the filters is given, not computed.
- DIE parsing, namespaces and CTF section framing (libctf.c:510-775); names are opaque strings or references.
- dwarves_reorganize.c, `class__fixup_alignment` and dwarves_emit.c: heuristics and printing.
- rb_prev, rb_last, rb_replace_node: mirror images of what is modelled, or unused.
- Parent pointer and colour share a word in rbtree.h:98-127; here they are two fields.
- Narrow C fields (8-bit hole counts, 16-bit paddings, 32-bit table indices and buffer lengths) are unbounded here unless a contract says otherwise; addresses do not wrap.
- BtfEncoder.Encoder.EncodeCu: every reference of a table stays inside the table, as the loader leaves it; out-of-range ids are not modelled. Functions and inline expansions are only saved there (btf_encoder.c:3626-3678); `SavedFuncs` takes them from where they are saved.
- TypesMatch.Match: the chains of pointers, modifiers, arrays and prototypes end; on others the source loops.
- FuncIndex.FunctionIndex.FindAt: agreement with a linear scan is stated for functions none of which starts inside another; otherwise only that what is found covers the address.
- Holes.Struct.FindHolesAndCheck: for structs whose members that take part are ordered, disjoint, inside the struct and normalised; overlapping members are not covered, and every member's type is found.
- SavedFuncs.AddSavedFuncs: the states come in sorted; which of those alike in name and in having an address comes first is qsort's choice, and what is written is told from the order it leaves.
- BtfArrays.SizesAgree: a size computed from the -1 of a missing type, or read past the end of an array of void, counts as no size.
- AltLoad.DwarfCu.Load: lookups are those of the hash tables; the one-entry lookup cache of dwarf_loader.c:495-501 and the list of top-level tags are not modelled, and units imported from the same file are not read inline.
- HashTags.HashTable.Find: the number of buckets is fixed when the table is made; the source lets later CUs use another.
- CtfLoader.Cu.LoadTypes: the source checks no bounds; here a read past the end is an outcome of its own, and the theorems show it does not occur on what the writers produce.
- CtfWriter.Ctf.StructureTypeEncode: once the members go beyond the buffer nothing more is said.
- CtfWriter.Ctf.Encode: ids beyond 16 bits, and counts beyond the 16-bit fields of the tags being encoded, are excluded.
