# Verified models of six algorithms

The repository pairs threads on sibling CPUs and carries the eBPF tool chain that feeds it.  This project models six
of its algorithms in Dafny and proves what each one is for.

- **Pairing scheduler** (`MagmScheduler`).  A window of runnable threads is either spread over the cores (CE) or, if
  there are more threads than cores, paired greedily by complementarity score (SP).  Proved: the greedy pairing
  collects at least half of what any thread-disjoint choice within the cores can, the factor is tight, every edge left
  out is dominated, and no thread or CPU is used twice.
- **Control-flow graphs** (`CfgSpec`, `CfgSimulation`, `CfgBuild`, `CfgProgram`).  An instruction array is cut into
  functions and blocks that are joined by edges, in linked objects updated in place.  Proved: the graph simulates every
  step exactly if unconditional jumps end blocks, every execution is a path of block objects exactly if those do that
  are ever executed, which edges there are beyond those, and the blocks of all functions are the program again.
- **Chained hash map** (`Hashing`, `HashTable`, `HashMapSpec`, `Buckets`, `HashMap`).  Chains of entries in a bucket
  array are relinked in place.  Proved: the object refines a table of chains, the table behaves as a finite map over
  every run without APPEND, down to which inserts run out of memory, one doubling always suffices, growth keeps the
  entries but reverses those with equal keys, and exactly when an appended entry is still what a lookup returns.
- **Streaming JSON writer** (`JsonWriter`, `JsonText`, `JsonParse`, `JsonPretty`).  Proved: the calls for a tree emit
  the tree's text, an independent parser written from RFC 8259 reads the tree back exactly if its strings hold no other
  control character, and for every sequence of calls pretty printing changes only whitespace exactly if no line is
  broken inside a string literal.
- **Skeleton layout and BTF minimiser** (`Skeleton`, `BtfTypes`, `BtfAccess`, `BtfWalk`, `BtfMark`, `BtfMinimize`,
  `BtfReplay`, `BtfRun`).
  Proved: a compiler puts every variable of the emitted struct at its recorded offset, with the exact condition for any
  ABI; marking reaches exactly what is reachable; a run marks exactly what its relocations need; renumbering is an
  order-preserving bijection, references lead to the images of what they led to, after successful relocations only
  pointers can lose their target, and every recorded access can be made again in the minimised graph.
- **Line-info index** (`LineInfo`, `LineDump`).  Proved: the address list is cut exactly if a dissection exists, there
  is only one, queries answer the last record at or before an address, and a listing shows every record once at its own
  instruction exactly if the records are in order.

Code that updates things step by step is modelled by methods and classes, each proved against a function on values;
the theorems are lemmas about these functions.  `dafny verify dfyconfig.toml` checks everything.

## Where the code and its documentation disagree

- `hashmap.h` (lines 105-106) says that a lookup after HASHMAP_APPEND returns the entry inserted last.  Growth reverses
  the entries of a key, so it may return the oldest: `HashMapSpec.LookupMayReportOldest` gives four appends, and
  `HashMapSpec.LastAppended` says exactly after which runs the promise holds.
- The length check of `dissect_jited_func` computes `last - ksym + 1` on 64 bits.  For a function at address 0 whose
  last record is at the last address the sum wraps to 0 and passes, as `LineInfo.LengthMayWrap` shows;
  `LineInfo.WithinLength` shows this is the only way for an address to lie outside its function.
- Pretty printing is meant to add whitespace between tokens only.  The dumper of C values prints a character between
  quotes as it is (`btf_dumper.c`, lines 445-446); for a quote character that leaves a string literal open, and the next
  line break falls into it: `JsonPretty.QuoteCharacterDiffers`, and `JsonPretty.PrettyExactly` for all calls.
- `jsonw_puts` passes control characters other than those it escapes through; such text is not JSON (section 7 of
  RFC 8259), which is why `JsonParse.WriteThenParse` has its condition.
- The graph has an edge from a block that ends in an exit to the next block, and a second edge from a block that ends in
  a call, computed from the call's offset; `CfgSimulation.EdgesExact` has both.

## Model

| member | source | states |
|---|---|---|
| MagmScheduler.ComplementarityScore | scripts/offline_magm_scheduler.py:61-71 | the loop over the seven features computes the weighted sum of differences less the weighted excess over the threshold |
| MagmScheduler.ScoreFormula | scripts/offline_magm_scheduler.py:38-71 | the score, written out feature by feature with its eleven weights |
| MagmScheduler.ScoreSymmetric | scripts/offline_magm_scheduler.py:61-71 | the order of two threads does not matter to their score |
| MagmScheduler.ScoreLaws | scripts/offline_magm_scheduler.py:61-71 | a higher threshold never lowers a score, a thread never complements itself, and pairs that stay under the threshold always score at least 0 |
| MagmScheduler.Intensity | scripts/offline_magm_scheduler.py:74-79 | the intensity bounds all three component intensities from above and is one of them |
| MagmScheduler.SortDescSorts | scripts/offline_magm_scheduler.py:94-132 | sorting by descending key permutes and orders |
| MagmScheduler.EdgesComplete | scripts/offline_magm_scheduler.py:123-131 | the double loop lists exactly the ordered pairs with score at least 0 |
| MagmScheduler.BuildEdges | scripts/offline_magm_scheduler.py:123-131 | the loops compute that list |
| MagmScheduler.GreedyIsMatching | scripts/offline_magm_scheduler.py:134-176 | the chosen pairs share no thread, come from the list, and number at most the cores |
| MagmScheduler.WithoutKeyCost | scripts/offline_magm_scheduler.py:134-176 | a matching loses at most one score by giving up a thread |
| MagmScheduler.GreedyIsHalfOptimal | scripts/offline_magm_scheduler.py:134-176 | from any state of the loop, no eligible matching scores more than twice what the loop still collects |
| MagmScheduler.SpIsHalfOptimal | scripts/offline_magm_scheduler.py:122-176 | the chosen pairs score at least half of any thread-disjoint set of candidate pairs that fits the cores |
| MagmScheduler.HalfIsTight | scripts/offline_magm_scheduler.py:122-176 | a window of four threads on two cores, given by its predictions, whose chosen pairs score exactly half of two other candidate pairs |
| MagmScheduler.GreedyDominates | scripts/offline_magm_scheduler.py:134-176 | an edge the loop leaves out met a used thread, or is dominated by chosen pairs |
| MagmScheduler.SpDominates | scripts/offline_magm_scheduler.py:132-176 | every candidate edge is chosen, shares a thread with a chosen pair of score at least as high, or finds all cores filled by such pairs; the matching is maximal if a core is left |
| MagmScheduler.ModeIsCapacityTest | scripts/offline_magm_scheduler.py:96-102 | CE is chosen exactly if the threads fit the cores (or there is at most one thread) |
| MagmScheduler.CandidatesAre | scripts/offline_magm_scheduler.py:122-122 | SP considers the `top_k` most intense threads, or all if there are fewer, or all but as many as a negative `top_k` says |
| MagmScheduler.RankedEdges | scripts/offline_magm_scheduler.py:123-132 | the sorted list holds exactly the candidate edges, best first |
| MagmScheduler.BindAlone | scripts/offline_magm_scheduler.py:104-120 | the CE loop binds row c to the first CPU of core c |
| MagmScheduler.BindPairs | scripts/offline_magm_scheduler.py:134-176 | the SP loop computes the greedy choice and its two bindings for each pair, which `PairOnSiblings` describes |
| MagmScheduler.ScheduleWindow | scripts/offline_magm_scheduler.py:86-184 | the window's decisions, each taken from a row of the window, and its summary, from rows in some descending order of intensity |
| MagmScheduler.DecisionsTaken | scripts/offline_magm_scheduler.py:86-184 | every decision is about one row of the window, with its load type, window, key, thread and pid, and carries the window's mode, load and number of threads |
| MagmScheduler.CeWindow | scripts/offline_magm_scheduler.py:104-121 | CE gives core c to the c-th most intense row, with all its fields and without partner or score, binds all exactly if there is a core, and is exclusive exactly if the keys are distinct |
| MagmScheduler.PairOnSiblings | scripts/offline_magm_scheduler.py:144-173 | the rows of pair c, each with its own fields, sit on CPUs 2c and 2c+1, name each other and carry the pair's score |
| MagmScheduler.SpWindow | scripts/offline_magm_scheduler.py:122-184 | SP binds the two rows of each chosen pair to the siblings of its core, at most one pair per core, and with distinct keys no thread or CPU twice |
| CfgSpec.AddedSorted | src/lib/bpftool/src/cfg.c:63-112 | ordered insertion keeps the list strictly ordered and adds exactly the one element |
| CfgSpec.StartsExact | src/lib/bpftool/src/cfg.c:131-149 | functions start exactly at the first instruction and at call targets |
| CfgSpec.HeadsExact | src/lib/bpftool/src/cfg.c:165-197 | blocks begin exactly at the function's start, at jump targets and after conditional jumps |
| CfgSpec.TransfersEndBlocks | src/lib/bpftool/src/cfg.c:165-197 | without unreachable instructions, every jump and exit is followed by a block head or the end of the function |
| CfgSpec.BlocksTile | src/lib/bpftool/src/cfg.c:165-214 | the blocks of a well-formed function are non-empty and lie end to end |
| CfgSpec.FunctionsTile | src/lib/bpftool/src/cfg.c:131-158 | the functions of a program are non-empty and lie end to end |
| CfgSpec.FindHead | src/lib/bpftool/src/cfg.c:243-254 | the first block with the head, if there is one |
| CfgSpec.TilesConcat | src/lib/bpftool/src/cfg.c:131-214 | pieces that lie end to end give back the instructions they cover |
| CfgSimulation.LeaderNotInside | src/lib/bpftool/src/cfg.c:165-214 | no block head lies inside another block |
| CfgSimulation.StepSimulated | src/lib/bpftool/src/cfg.c:277-331 | every step of an instruction stays in its block or follows an edge from the tail to the head of a block |
| CfgSimulation.SimulationCriterion | src/lib/bpftool/src/cfg.c:165-331 | the graph simulates all steps of a well-formed function if and only if its unconditional jumps end blocks |
| CfgSimulation.DeadCodeUnsimulated | src/lib/bpftool/src/cfg.c:165-331 | a well-formed function with dead code behind a jump, and the step its graph misses |
| CfgSimulation.TransfersAtEnds | src/lib/bpftool/src/cfg.c:165-214 | without unreachable instructions control leaves a block only at its tail and every jump target is a head |
| CfgSimulation.EdgesExact | src/lib/bpftool/src/cfg.c:300-327 | two blocks are joined exactly if a step leads from tail to head, or the first ends in an exit and the other is next, or the first ends in a call whose offset points at the other's head |
| CfgSimulation.PathsAreBlockPaths | src/lib/bpftool/src/cfg.c:277-331 | if the unconditional jumps that are ever executed end blocks, every execution path is a path of blocks from the entry, each run from head to tail |
| CfgSimulation.PathsExactly | src/lib/bpftool/src/cfg.c:277-331 | and only if they do |
| CfgBuild.AddedAt | src/lib/bpftool/src/cfg.c:63-112 | inserting before the first greater element is ordered insertion |
| CfgBuild.FuncNode.AppendBb | src/lib/bpftool/src/cfg.c:88-112 | the list of blocks gets the head in order unless it is there, and no edges; the block with that head is returned |
| CfgBuild.FuncNode.PartitionHead | src/lib/bpftool/src/cfg.c:165-197 | the block list has exactly the specified heads |
| CfgBuild.FuncNode.PartitionTail | src/lib/bpftool/src/cfg.c:199-214 | every block is closed before the next head, the last at the function's end, and blocks are numbered 2, 3, ... in order |
| CfgBuild.FuncNode.AddSpecialBb | src/lib/bpftool/src/cfg.c:216-231 | an entry numbered 0 and an exit numbered 1, both without instructions, enclose the unchanged blocks |
| CfgBuild.FuncNode.PartitionBb | src/lib/bpftool/src/cfg.c:233-241 | heads, tails and numbers together, in new block objects |
| CfgBuild.FuncNode.SearchBbWithHead | src/lib/bpftool/src/cfg.c:243-254 | the block object that the specification's search names, or null |
| CfgBuild.FuncNode.AddSpecialEdges | src/lib/bpftool/src/cfg.c:283-293 | the entry gets an edge to the first block, and the exit lists an edge from the last |
| CfgBuild.FuncNode.AddSuccessors | src/lib/bpftool/src/cfg.c:297-328 | a block's edges, in order and with flags, are the specified ones, which `CfgProgram.BlockEdges` describes |
| CfgBuild.FuncNode.AddBbEdges | src/lib/bpftool/src/cfg.c:277-331 | the whole graph of a function: entry and exit edges and every block's own, which `CfgProgram.BlockEdges`, `SpecialEdges` and `EdgesToSpecial` describe |
| CfgBuild.FuncNode.BuildGraph | src/lib/bpftool/src/cfg.c:344-350 | the function's blocks and edges are those its instructions call for |
| CfgBuild.Cfg.AppendFunc | src/lib/bpftool/src/cfg.c:63-86 | the list of functions gets the start in order unless it is there, functions are numbered without gaps, and the one with that start is returned |
| CfgBuild.Cfg.PartitionFuncs | src/lib/bpftool/src/cfg.c:131-158 | the functions have exactly the specified starts and ends |
| CfgBuild.Cfg.CloseFuncs | src/lib/bpftool/src/cfg.c:151-155 | every function ends before the next one starts, the last with the program |
| CfgBuild.Cfg.Build | src/lib/bpftool/src/cfg.c:333-352 | for every program whose calls and jumps stay inside it, all functions are found and each has its graph |
| CfgProgram.JoinedIsEdge | src/lib/bpftool/src/cfg.c:256-331 | there is an edge object between two blocks exactly if the specification joins them |
| CfgProgram.NodeHeads | src/lib/bpftool/src/cfg.c:165-214 | block objects begin where the function does, where a jump of it leads, and after its conditional jumps, and nowhere else |
| CfgProgram.BlockEdges | src/lib/bpftool/src/cfg.c:297-328 | every edge object of a block, by its last instruction: unless that is an unconditional jump, one to the block that begins with the next instruction, or to the exit at the end of the function; for jumps and calls one to the block at the target, or nowhere if there is none |
| CfgProgram.SpecialEdges | src/lib/bpftool/src/cfg.c:283-293 | the entry has one edge, to the block that begins the function, and the exit lists one, from the block that ends it |
| CfgProgram.EdgesToSpecial | src/lib/bpftool/src/cfg.c:283-328 | no edge leads to the entry, and one leads to the exit from the last block unless that ends in an unconditional jump, and from nowhere else |
| CfgProgram.GraphSimulates | src/lib/bpftool/src/cfg.c:277-331 | in the graph in memory every step of execution stays in a block object or follows an edge object |
| CfgProgram.GraphPathsExactly | src/lib/bpftool/src/cfg.c:277-331 | in the graph in memory, all execution paths run from the entry along edge objects through block objects if and only if every unconditional jump that is ever executed ends a block |
| CfgProgram.ProgramRestored | src/lib/bpftool/src/cfg.c:131-214 | the blocks of all functions, concatenated, are the program |
| Hashing.HashBitsInRange | src/lib/libbpf/src/hashmap.h:15-29 | a hash reduced to b bits is below 2^b, and 0 if b is 0 |
| Hashing.HashBitsAreUpper | src/lib/libbpf/src/hashmap.h:15-29 | a hash reduced to b bits is the upper b bits of the product on 64 bits |
| Hashing.MultiplierIsGolden | src/lib/libbpf/src/hashmap.h:23-23 | the multiplier is 2^64 over the golden ratio, rounded down |
| HashTable.BucketHasAllMatches | src/lib/libbpf/src/hashmap.c:130-152 | all entries equal to a key are in the bucket of its hash |
| HashTable.DistributeKeeps | src/lib/libbpf/src/hashmap.c:101-128 | rehashing keeps the multiset of entries and puts each into the bucket of its hash |
| HashTable.DistributeReverses | src/lib/libbpf/src/hashmap.c:101-128 | rehashing reverses the entries of a key |
| HashMapSpec.GrowthTestExact | src/lib/libbpf/src/hashmap.c:95-99 | the truncating growth test is the exact 75% test when the capacity is a multiple of four |
| HashMapSpec.DoublingSuffices | src/lib/libbpf/src/hashmap.c:101-109 | one doubling makes room for one more entry at 75% |
| HashMapSpec.GrowthDoubles | src/lib/libbpf/src/hashmap.c:101-112 | growth starts with four buckets and then doubles |
| HashMapSpec.GrownOk | src/lib/libbpf/src/hashmap.c:101-128 | growth keeps the invariant, the size and the entries |
| HashMapSpec.RoomyOk | src/lib/libbpf/src/hashmap.c:95-128 | after growing if needed, one more entry keeps the table at most 75% full |
| HashMapSpec.GrownMatches | src/lib/libbpf/src/hashmap.c:101-128 | growth reverses the entries equal to each key |
| HashMapSpec.InsertMeaning | src/lib/libbpf/src/hashmap.c:154-204 | for every strategy, memory outcome and key: exactly which error code, old key and value, and the entries of any key afterwards; the invariant is kept |
| HashMapSpec.InsertCounts | src/lib/libbpf/src/hashmap.c:154-204 | the size grows by one exactly if an entry is added; the capacity, from 0 to 4 or to the double, exactly if one is due, the table is full and can grow |
| HashMapSpec.DeleteMeaning | src/lib/libbpf/src/hashmap.c:220-240 | the first entry of the key goes and is reported, every other key keeps its entries, the size drops by one |
| HashMapSpec.FailedInsertKeepsContents | src/lib/libbpf/src/hashmap.c:154-204 | an insert that fails keeps the multiset of entries, and with unique keys every lookup |
| HashMapSpec.StepOk | src/lib/libbpf/src/hashmap.c:63-240 | every operation, APPEND included, keeps the invariant: hashed chains, load at most 75%, capacity 0 or a power of two of at least four |
| HashMapSpec.StepRefines | src/lib/libbpf/src/hashmap.c:154-240 | one operation is one operation of a finite map that knows its size and capacity, -ENOMEM included |
| HashMapSpec.RunsRefine | src/lib/libbpf/src/hashmap.c:154-240 | every run without APPEND has exactly the outcomes of the finite map and ends in a table that represents it |
| HashMapSpec.FreshMapIsFiniteMap | src/lib/libbpf/src/hashmap.c:38-240 | so does every run from a new map |
| HashMapSpec.GrowthLookup | src/lib/libbpf/src/hashmap.c:101-128 | growth keeps a key's lookup if and only if its first and last entries agree |
| HashMapSpec.AppendLookup | src/lib/libbpf/src/hashmap.h:102-106 | an append is what its key reports next; another key's lookup survives exactly if the table did not grow or the key's first and last entries agree |
| HashMapSpec.RunLeavesMatches | src/lib/libbpf/src/hashmap.c:101-240 | a run that neither inserts nor deletes a key keeps its entries, in order or, after an odd number of growths, reversed |
| HashMapSpec.LastAppended | src/lib/libbpf/src/hashmap.h:102-106 | after an append and any such run, a lookup returns the appended entry if and only if the table grew an even number of times or the key's first and last entries agree |
| HashMapSpec.LookupMayReportOldest | src/lib/libbpf/src/hashmap.h:102-106 | four appends after which a lookup reports the oldest entry, not the last inserted |
| Buckets.SearchChain | src/lib/libbpf/src/hashmap.c:130-152 | the walk finds the first entry with an equal key and the entry before it |
| Buckets.AddEntry | src/lib/libbpf/src/hashmap.c:24-29 | linking an entry in front keeps all chains linked and apart |
| Buckets.SetEntry | src/lib/libbpf/src/hashmap.c:175-178 | overwriting an entry in place changes that entry of that chain only |
| Buckets.DelEntry | src/lib/libbpf/src/hashmap.c:31-36 | unlinking an entry keeps the rest of its chain and all others |
| Buckets.MoveChain | src/lib/libbpf/src/hashmap.c:117-121 | moving a chain pushes each entry on the front of its new bucket |
| Buckets.MoveAll | src/lib/libbpf/src/hashmap.c:117-121 | all chains end up acyclic and disjoint in the new array, as the specification distributes them |
| HashMap.HashMap.constructor | src/lib/libbpf/src/hashmap.c:38-49 | a new map is empty |
| HashMap.HashMap.Clear | src/lib/libbpf/src/hashmap.c:63-74 | clearing empties the map |
| HashMap.HashMap.Count | src/lib/libbpf/src/hashmap.c:85-88 | the size field counts the entries |
| HashMap.HashMap.FindEntry | src/lib/libbpf/src/hashmap.c:130-152 | the first entry of the bucket with an equal key and its predecessor |
| HashMap.HashMap.Find | src/lib/libbpf/src/hashmap.c:206-218 | the first of all entries with an equal key, if there is one |
| HashMap.HashMap.GrowBuckets | src/lib/libbpf/src/hashmap.c:101-128 | the grown table, or -ENOMEM and no change |
| HashMap.HashMap.Insert | src/lib/libbpf/src/hashmap.c:154-204 | table and result of the specified insert, for every strategy and memory outcome |
| HashMap.HashMap.Delete | src/lib/libbpf/src/hashmap.c:220-240 | table and result of the specified delete |
| JsonWriter.RunConcat | src/lib/bpftool/src/json_writer.c:126-207 | calls compose: a run of two lists is a run of the second from where the first ended |
| JsonWriter.IndentExactly | src/lib/bpftool/src/json_writer.c:29-34 | the indentation is four blanks for each level and nothing else |
| JsonWriter.EscapesExactly | src/lib/bpftool/src/json_writer.c:57-87 | seven characters are escaped, each by its letter, and every other stands for itself |
| JsonWriter.NamePrints | src/lib/bpftool/src/json_writer.c:308-352 | what a name prints in the outer and in an inner object, pretty: separator, line break, indentation, quotes and colon |
| JsonWriter.CompactPrints | src/lib/bpftool/src/json_writer.c:134-156 | what names and closing brackets print, compact |
| JsonWriter.ValuePrints | src/lib/bpftool/src/json_writer.c:158-202 | what a formatted text, a quoted one and a string print, behind the comma that is due |
| JsonWriter.ClosePrints | src/lib/bpftool/src/json_writer.c:134-143 | a closing bracket is on a line of its own unless nothing is between the brackets |
| JsonWriter.JsonWriter.constructor | src/lib/bpftool/src/json_writer.c:90-100 | a fresh writer |
| JsonWriter.JsonWriter.PutIndent | src/lib/bpftool/src/json_writer.c:29-34 | four blanks for each level |
| JsonWriter.JsonWriter.PutEol | src/lib/bpftool/src/json_writer.c:37-44 | a line break and the indentation, if pretty |
| JsonWriter.JsonWriter.PutEor | src/lib/bpftool/src/json_writer.c:47-52 | the separator that is due |
| JsonWriter.JsonWriter.Puts | src/lib/bpftool/src/json_writer.c:57-87 | the quoted and escaped string |
| JsonWriter.JsonWriter.SetPretty | src/lib/bpftool/src/json_writer.c:114-117 | the specified step |
| JsonWriter.JsonWriter.ResetSep | src/lib/bpftool/src/json_writer.c:119-123 | the specified step, at depth 0 |
| JsonWriter.JsonWriter.Begin | src/lib/bpftool/src/json_writer.c:126-132 | the specified step of an opening |
| JsonWriter.JsonWriter.Finish | src/lib/bpftool/src/json_writer.c:134-143 | the specified step of a closing |
| JsonWriter.JsonWriter.PutName | src/lib/bpftool/src/json_writer.c:147-156 | the specified step of a member name |
| JsonWriter.JsonWriter.PutString | src/lib/bpftool/src/json_writer.c:198-202 | the specified step of a string |
| JsonWriter.JsonWriter.PutFormatted | src/lib/bpftool/src/json_writer.c:166-174 | the specified step of formatted text |
| JsonWriter.JsonWriter.PutEnquoted | src/lib/bpftool/src/json_writer.c:158-164 | the specified step of formatted text in quotes |
| JsonWriter.JsonWriter.PutBool | src/lib/bpftool/src/json_writer.c:204-207 | the specified step of a literal |
| JsonWriter.JsonWriter.PutStringField | src/lib/bpftool/src/json_writer.c:247-251 | a name and a string |
| JsonWriter.JsonWriter.Destroy | src/lib/bpftool/src/json_writer.c:103-112 | a final newline, at depth 0 |
| JsonText.EmitsText | src/lib/bpftool/src/json_writer.c:126-202 | the calls for a tree, in any state of the writer, emit exactly the tree's text, every comma in place, and return to the same depth |
| JsonText.EmitsMembers | src/lib/bpftool/src/json_writer.c:126-202 | the calls for members emit their text |
| JsonText.EmitsItems | src/lib/bpftool/src/json_writer.c:126-202 | the calls for items emit their text |
| JsonParse.StringReadsBack | src/lib/bpftool/src/json_writer.c:57-87 | an escaped string parses back to itself if and only if it has no other control character |
| JsonParse.ReadsBack | src/lib/bpftool/src/json_writer.c:126-202 | a tree's text, indented or not and whatever follows, parses back to the tree if and only if its strings do |
| JsonParse.WriteThenParse | src/lib/bpftool/src/json_writer.c:90-202 | driving a fresh writer through a tree ends at depth 0 with text that parses back to the tree if and only if its strings do |
| JsonPretty.StepsTogether | src/lib/bpftool/src/json_writer.c:29-207 | the same call keeps two writers in the same state whatever their pretty flags, stops both or neither, and appends the same text up to whitespace unless it breaks a line of just one inside a string literal |
| JsonPretty.UnsafeBreak | src/lib/bpftool/src/json_writer.c:134-156 | a line that just one writer breaks inside a string literal sets the outputs apart for good |
| JsonPretty.RunsTogether | src/lib/bpftool/src/json_writer.c:29-207 | for every sequence of calls and all pretty flags, two writers end in the same state, with outputs that differ only in whitespace if and only if there was no such break |
| JsonPretty.PrettyExactly | src/lib/bpftool/src/json_writer.c:29-207 | against a writer never asked to be pretty: equal depth and separator; equal text up to whitespace if and only if lines are broken only outside string literals; and exactly the compact text once whitespace is removed if and only if, moreover, that one prints none |
| JsonPretty.PrettyChangesOnlyWhitespace | src/lib/bpftool/src/json_writer.c:29-156 | so calls whose formatted text closes the string literals it opens and has no whitespace between tokens give exactly the compact output |
| JsonPretty.ScalarFine | src/lib/bpftool/src/json_writer.c:166-174 | numbers and literal names are such text |
| JsonPretty.TreeTextStrips | src/lib/bpftool/src/json_writer.c:126-202 | the indented text of a tree without whitespace between tokens is its compact text |
| JsonPretty.QuoteCharacterDiffers | src/lib/bpftool/src/btf_dumper.c:443-446 | an object with the character member `"`, printed as the dumper does, for which the two outputs differ by more than whitespace |
| Skeleton.RoundUpUnique | src/lib/bpftool/src/gen.c:208-208 | within one alignment of an offset, the rounded offset is the only multiple |
| Skeleton.RoundUpByDivision | src/lib/bpftool/src/gen.c:205-208 | the source's division computes it |
| Skeleton.CodegenDatasecDef | src/lib/bpftool/src/gen.c:147-231 | nothing for an unknown section; otherwise the loop emits the specified fields and returns the specified error |
| Skeleton.SucceedsExactly | src/lib/bpftool/src/gen.c:174-228 | it succeeds if and only if the variables that are not static come in order without overlap, have known alignments and can be declared |
| Skeleton.ErrorIs | src/lib/bpftool/src/gen.c:178-228 | otherwise the first such variable decides the error: -EINVAL for overlap or unknown alignment, else what declaring it returns |
| Skeleton.PadsExactly | src/lib/bpftool/src/gen.c:205-213 | no padding is emitted exactly if the offset is a multiple of the capped alignment and the first one after the last variable |
| Skeleton.VariableFields | src/lib/bpftool/src/gen.c:174-229 | a variable adds itself, behind padding of exactly the bytes of its gap, if it needs any |
| Skeleton.PlacedExactly | src/lib/bpftool/src/gen.c:166-230 | under any ABI, a compiler puts all variables at their recorded offsets if and only if each offset suits the variable's alignment and each gap is padded or left by alignment |
| Skeleton.PlacedUnderEveryAbi | src/lib/bpftool/src/gen.c:193-206 | which holds for every ABI that aligns at least as much as the generator assumes |
| Skeleton.PlacedUnderBothAbis | src/lib/bpftool/src/gen.c:193-213 | so the struct is as recorded both with natural alignment and with alignment capped at 4 |
| Skeleton.PadsNumbered | src/lib/bpftool/src/gen.c:209-213 | the padding fields are numbered from 0 without gaps or repetition |
| BtfTypes.ReachesStep | src/lib/bpftool/src/gen.c:1982-2055 | what a type reaches is itself and what its followed references reach |
| BtfTypes.FollowsExactly | src/lib/bpftool/src/gen.c:1999-2052 | marking follows every reference of typedefs, modifiers, arrays and function prototypes, a pointer's if and only if asked to, and no other, and which kinds it supports |
| BtfTypes.PointerReaches | src/lib/bpftool/src/gen.c:2007-2013 | with pointers followed, a pointer reaches what its target does; without, only itself |
| BtfTypes.ChainBounded | src/lib/bpftool/src/gen.c:1982-2055 | without cycles, no chain of references is longer than the number of types, so marking terminates |
| BtfTypes.DepthBoundedExactly | src/lib/bpftool/src/gen.c:1982-2055 | recursion along followed references is bounded if and only if no path from the type comes back to where it has been |
| BtfAccess.AccessGood | src/lib/bpftool/src/gen.c:2070-2106 | along an access every struct on the way and every member's type is among what is needed |
| BtfWalk.UnderIsBare | src/lib/bpftool/src/gen.c:2073-2077 | skipping typedefs and modifiers finds the type at the end of the chain of them, if there is one |
| BtfWalk.WalkNeeds | src/lib/bpftool/src/gen.c:2057-2109 | what an access collects, told by the list of types it passes: under typedefs and modifiers each is a struct or union whose member of the entry's number has the next type, or an array of it; the members are these, and the types are what the root and theirs reach |
| BtfWalk.AccessibleExactly | src/lib/bpftool/src/gen.c:2057-2109 | an access can be recorded if and only if such a list exists and all it needs is supported |
| BtfMark.BtfgenInfo.constructor | src/lib/bpftool/src/gen.c:1940-1972 | nothing is marked at first |
| BtfMark.BtfgenInfo.MarkType | src/lib/bpftool/src/gen.c:1982-2055 | terminates without cycles; succeeds if and only if everything reached is supported, and then marks exactly that, following pointers only if asked and never entering structs or unions; a failure marks nothing else |
| BtfMark.BtfgenInfo.MarkMember | src/lib/bpftool/src/gen.c:1974-1980 | marks the one member |
| BtfMark.BtfgenInfo.SkipMods | src/lib/bpftool/src/gen.c:2073-2077 | the type under the typedefs and modifiers |
| BtfMark.BtfgenInfo.RecordFieldRelo | src/lib/bpftool/src/gen.c:2057-2109 | succeeds if and only if the access has a list of types that it passes and all they need is supported; then marks exactly the members that its entries number and what the root and those members' types reach; the marks stay closed |
| BtfMark.BtfgenInfo.RecordReloc | src/lib/bpftool/src/gen.c:2217-2252 | dispatches on the kind; on success the marks gain exactly the types and members that the relocation needs, and stay closed |
| BtfMark.ReloPointers | src/lib/bpftool/src/gen.c:2217-2252 | a relocation about a type needs what its pointers lead to; one about an enumerator does not |
| BtfMark.MarkKeepsClosed | src/lib/bpftool/src/gen.c:1982-2055 | marking a type leaves no followed reference of a marked type unmarked |
| BtfMark.FieldClosed | src/lib/bpftool/src/gen.c:2057-2109 | recording an access leaves none either, and every marked member has a marked struct and a marked type |
| BtfMinimize.NewIdsOrdered | src/lib/bpftool/src/gen.c:2411-2462 | new numbers keep the order of the old and differ |
| BtfMinimize.NewIdsDense | src/lib/bpftool/src/gen.c:2411-2462 | every number from 1 to the number of marked types is used |
| BtfMinimize.RenumberedIds | src/lib/libbpf/src/btf.c:5006-5077 | rewriting replaces every reference in its place and no other |
| BtfMinimize.RemapIds | src/lib/libbpf/src/btf.c:5006-5077 | visiting a type with `btfgen_remap_id` rewrites it through the table; unknown kinds fail |
| BtfMinimize.AddComposite | src/lib/bpftool/src/gen.c:2425-2453 | the copy that `ImageFields` describes; fails if a marked member cannot be added |
| BtfMinimize.AddType | src/lib/bpftool/src/gen.c:2454-2459 | any other type is copied whole; an unknown kind fails |
| BtfMinimize.CopyMarked | src/lib/bpftool/src/gen.c:2410-2463 | the first pass copies the marked types and fills the table |
| BtfMinimize.RemapAll | src/lib/bpftool/src/gen.c:2465-2474 | the second pass rewrites every copied type |
| BtfMinimize.GetBtf | src/lib/bpftool/src/gen.c:2391-2484 | fails if and only if a marked type cannot be copied; otherwise void and the image of every marked type under its new number |
| BtfMinimize.ImageFields | src/lib/bpftool/src/gen.c:2413-2474 | field by field, a marked type's image: same name and kind; a struct or union keeps which it is, its size, and exactly its marked members in order with name, offset and width; a modifier its kind, an array its count, a prototype its parameters' names; every reference is the new number of what it was |
| BtfMinimize.CopiesExactly | src/lib/libbpf/src/btf.c:2204-2211 | all marked types can be copied if and only if none is of unknown kind and every marked member is byte-aligned or a bit field of at most 255 bits within the first 2^24, and at 0 in a union |
| BtfMinimize.ReferencesPreserved | src/lib/bpftool/src/gen.c:2382-2474 | every kept reference leads to the image of what it led to, or is 0 if and only if that was void or unmarked |
| BtfMinimize.OnlyPointersDangle | src/lib/bpftool/src/gen.c:1982-2474 | with the marks of successful relocations, references of everything but pointers become 0 only if they were |
| BtfMinimize.MemberSurvives | src/lib/bpftool/src/gen.c:2425-2474 | with the marks of successful relocations, a marked member is a member of its struct's image, with its name and offset and the image of its type |
| BtfReplay.UnderSurvives | src/lib/bpftool/src/gen.c:2411-2474 | what is under a marked type's typedefs and modifiers has its image under those of its image |
| BtfReplay.WalkReplays | src/lib/bpftool/src/gen.c:2057-2474 | an access whose root and members are marked can be made again in the minimised graph, through the images of the types it passes and with the same members |
| BtfRun.MinimizeBtf | src/lib/bpftool/src/gen.c:2509-2534 | succeeds if and only if every relocation does and all they need can be copied; the result then has the images of exactly the types the relocations need, with exactly the members they go through, the marks are closed, and every access can be made again in the result |
| LineInfo.CutsAgree | src/lib/libbpf/src/bpf_prog_linfo.c:22-86 | a list of addresses has at most one dissection |
| LineInfo.DissectionGoesOn | src/lib/libbpf/src/bpf_prog_linfo.c:42-72 | where a dissection exists the scan is never stuck |
| LineInfo.DissectionExactly | src/lib/libbpf/src/bpf_prog_linfo.c:34-80 | what a dissection is, in plain arithmetic: each function begins at its address, up to the next one's addresses increase, do not meet the next start, and stay below the function's end, or go from address 0 to the last of all |
| LineInfo.ProgLinfo.DissectJitedFunc | src/lib/libbpf/src/bpf_prog_linfo.c:22-86 | succeeds if and only if there are such beginnings, and then stores them and the counts between them |
| LineInfo.RangesPartition | src/lib/libbpf/src/bpf_prog_linfo.c:48-80 | every record is of exactly one function, and each function's first record is at its address |
| LineInfo.CountsCoverAll | src/lib/libbpf/src/bpf_prog_linfo.c:57-80 | the counts add up to the number of records |
| LineInfo.IncreasesWithin | src/lib/libbpf/src/bpf_prog_linfo.c:67-71 | in every function but the last, addresses strictly increase |
| LineInfo.WithinLength | src/lib/libbpf/src/bpf_prog_linfo.c:53-56 | and lie within the function's length, unless the function spans all 64-bit addresses |
| LineInfo.LengthMayWrap | src/lib/libbpf/src/bpf_prog_linfo.c:53-56 | a list of three addresses that is dissected although the first function spans them all |
| LineInfo.ProgLinfo.LfindAddrFunc | src/lib/libbpf/src/bpf_prog_linfo.c:180-216 | the specified query on a function's records |
| LineInfo.ProgLinfo.Lfind | src/lib/libbpf/src/bpf_prog_linfo.c:218-246 | the specified query on all records |
| LineInfo.FindLastIsLast | src/lib/libbpf/src/bpf_prog_linfo.c:201-245 | among increasing records the answer is the last one at or before the key |
| LineInfo.AddrQuery | src/lib/libbpf/src/bpf_prog_linfo.c:180-216 | which is the case in every dissected function but the last |
| LineDump.DumpXlatedPlain | src/lib/bpftool/src/xlated_dumper.c:322-350 | the listing loop with its moving cursor computes the specified listing |
| LineDump.OrderlyIsFaithful | src/lib/bpftool/src/xlated_dumper.c:339-348 | records in order are each shown once, at their own instruction |
| LineDump.RecordsInOrder | src/lib/bpftool/src/xlated_dumper.c:339-348 | in a faithful listing the t-th line shown is record t |
| LineDump.FaithfulExactly | src/lib/libbpf/src/bpf_prog_linfo.c:218-246 | the listing shows every record of an instruction in the program exactly once and at its own instruction if and only if these records come first, strictly increase, and none names the second half of a double instruction |

## Left out

- Running out of memory, except in the hash map, where `calloc` and `malloc` are inputs and the size of a bucket array
  overflows above 60 bits of capacity.
- Scheduler: floating-point rounding and NaN scores (scores are reals), and reading and writing the CSV files.  Ties in
  the intensity sort are left to the sort; ties in the edge sort keep list order, as in Python.
- Control-flow graphs: drawing them in DOT, freeing them, and the JMP32 form of an unconditional jump.  Edges are values
  with their final fields, not objects filled in step by step, and lists are sequences of objects instead of intrusive
  links.
- Hash map: the iteration macros, and `hashmap__free`; keys and values are integers, and the hash and equality functions
  are inputs that must be an equivalence and agree.
- HashMap.HashMap.Clear: does not model the loop that frees the entries, because objects are not freed here.
- JSON: `\u` escapes (the writer emits none, and the parser reads none), the end of a C string at NUL, and printf
  formatting: numbers arrive as text.
- JsonWriter.JsonWriter.Begin: does not model wrap-around of the depth, because it takes 2^32 open brackets.
- Skeleton: the text of declarations, identifiers, and sizes of types that differ from the recorded sizes; offsets are
  unbounded integers, while the source uses `int`.
- BTF: string tables (names travel with their types), the binary format, the marks being stored in `name_off` of a
  second copy (they are booleans here), and `btf__add_*` beyond what they accept and append.
- BtfMark.BtfgenInfo.RecordReloc: does not model type-match relocations, because the recursion of
  `btfgen_mark_type_match` has no measure for cycles through function prototypes.
- BtfRun.MinimizeBtf: does not model those either, nor the search for candidates that produces an access; a run is given
  as its list of relocations, and reading and writing files is left out.
- Line info: record strides, copying the arrays, and the lines that come from the address index in the JSON dumper.
- The eBPF programs and collectors, the analysis scripts, and the command front ends: kernel hooks, data files and
  system calls with little logic of their own.
