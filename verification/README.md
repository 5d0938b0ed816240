# Verified models of AFL-ETM

AFL-ETM is a fork of the AFL fuzzer that rebuilds coverage from the branch
traces of Arm CoreSight (ETMv4). This project models the parts of it whose
correctness is hardest to see from the code and proves what they are for. It is
plain Dafny 4.11 without libraries; `dafny verify dfyconfig.toml` checks all of
it.

Code that works in place is modelled in place: the minimizer, the trimmer, the
tracer with its coverage map, the queue with its slots and reference counts, the
topology with its devices and links are classes whose methods change their
fields, and every loop of the original is a loop here. What such a class is for
is said by specification functions on values, and the lemmas are about those.

| file | what it covers |
|---|---|
| `Bytes.dfy`, `Words.dfy`, `Subsequences.dfy` | byte buffers; bitwise operations on integers, bit by bit; what is left when bytes are deleted |
| `Reduction.dfy`, `Minimizer.dfy` | the test-case minimizer: what its stages do to a byte string and when the result is minimal, and the stages on the buffer |
| `TopologyGraph.dfy`, `Topology.dfy` | the CoreSight topology with auto-split: as a graph of values, and on the heap |
| `ForkServer.dfy`, `ForkOutcomes.dfy`, `Persistent.dfy` | the fork-server protocol as interleaved steps of server, fuzzer, kill timer and children; how a run's outcome gets to the fuzzer and which child serves next; the loop of a persistent child |
| `Atoms.dfy`, `AtomHash.dfy`, `AtomDigits.dfy` | atom packets, their tables and format decoders, the atom hash and what it keeps |
| `TraceEvents.dfy`, `MapCells.dfy` | the meaning of a trace: events, edges, map cells, histogram; exactly which branches share a cell |
| `Tracer.dfy`, `Packets.dfy`, `Decoder.dfy` | the tracer state, the packet syntax, the decoder |
| `PacketWriter.dfy`, `TraceWriter.dfy` | how packets of all kinds and whole traces are written, and that the decoder inverts it |
| `Favorites.dfy`, `Queue.dfy` | slot winners, favorites and pending counters, on values and on the heap |
| `QueueLife.dfy`, `FuzzLoop.dfy` | whole runs of the fuzzer: what becomes of every entry, on values and on the heap |
| `CoverageMap.dfy`, `PopCount.dfy`, `AtomCoverage.dfy` | virgin maps, word-wise counting, hybrid atom coverage with purges and the checksum filter |
| `Checksum.dfy` | the trace checksum |
| `Dictionary.dfy`, `DictionaryLines.dfy`, `Extras.dfy` | the token printer and the dictionary parser; exactly which lines give which token; the dictionary stages |
| `Trim.dfy`, `Arith.dfy` | trimming; the redundancy test for arithmetic |

## What the proofs found

Some claims hold only under a condition. What is known of it is proved too, as an
if-and-only-if wherever "exactly" or "if and only if" is said.

- In every run of the fuzzer each byte is held by the cheapest of all entries
  ever scored on it (`FuzzLoop.Fuzz`). This rests on the order of the steps: an
  entry is scored only once its calibration succeeded, is never calibrated again
  after that, and gets shorter only in a trim that scores it again. Only a trim
  cut short by the end of the run leaves one entry cheaper than its score. It
  takes for granted that an entry hits the same bytes in every run and that no
  calibrated run takes 2^32 microseconds.
- The scoring itself would not see to it. If the cost of a scored entry could
  rise, a holder that became slower could let in an entry worse than one turned
  away before (`Favorites.ChangedFactorBreaksBest`). For single steps it is known
  exactly when the holder is the cheapest afterwards: for a new cost
  (`Favorites.CostChangeExact`), for a scoring (`Favorites.ScoringExact`), and
  for one after the other (`Favorites.RescoredExact`).
- A text token that starts with NUL is printed as an empty string, and the
  parser gives up on the whole dictionary file at that line. All other printed
  tokens come back (`Dictionary.DumpedTokenParses`, `Dictionary.CaptureFileLoads`).
- Two strings of up to twenty atoms share a hash exactly when they differ in
  leading N atoms only (`AtomHash.SharedHash`), so strings of one length never
  do. A map cell keeps sixteen bits of address plus hash, whatever the length
  (`MapCells.SameCell`). Since an edge always ends with a taken branch, edges of
  up to thirteen atoms share a cell exactly when they differ in leading N atoms
  only (`MapCells.BranchesAndCells`). Thirteen is the limit
  (`MapCells.ThirteenIsTheLimit`): for every greater length there are two traces
  that took different branches and leave the same map (`MapCells.UnseenBranches`).
- Writing a dictionary token over a longer one without restoring the buffer
  gives a clean result exactly when the longer token left what the input had
  there anyway (`Extras.OverLonger`); with sorted tokens the case never arises.
- A persistent loop with a count of 0 runs 2^32 times, because the counter is
  lowered before it is tested (`Persistent.Child.Drive`).
- The checksum filter also stops a trace whose checksum takes its two halves
  from two different rejected checksums (`AtomCoverage.FilterMixesHalves`).
- A trimming stage that gives up leaves the file as it was although the buffer
  and the recorded length may already be shorter: file and buffer differ if and
  only if some run was a reason to give up and some run before it closed a gap
  (`Trim.Trimmer.TrimCase`). It takes two runs on twelve bytes
  (`Trim.GivesUpAfterTrimming`), and never happens with a target that gives no
  such reason.
- One-minimality of a minimized test case does not need the blocks that the
  skip rule never runs: deleting either of two equal neighbouring blocks gives
  the same bytes.
- A minimized test case need not be minimal in its symbols and characters, even
  under a consistent verdict: from the second pass on, a pass that deletes
  nothing ends the work before symbols and characters are tried again. "abcb"
  becomes "a0cb" although "00cb" is accepted too
  (`Reduction.SecondPassStopsEarly`). The result is minimal, after any number of
  passes, when what is rejected stays rejected with more bytes replaced by '0'
  (`Reduction.MonotoneIsMinimal`), and for any consistent verdict when one pass
  was enough.
- The timer of the handshake can expire after the hello was sent. The fuzzer
  then takes the dead server for a live one and gives up at its first request.
  That and a failing fork are all that ever ends the server
  (`ForkServer.ServerEnds`, `ForkServer.GivesUpOnDead`).

Where comment and code differ, the model follows the code: the short address of
instruction set 1 with a second byte always gives 0 (the code ands where it
should or); a cycle-count packet of format 1 never has its count section; the
commit and first cancel headers and the conditional flush header are shadowed by
earlier entries of the packet list. The insertion stage copies one more byte
than the buffer has after its last offset; the model leaves that copy out.
A split names its hidden device after the visible one, which fails for a device
without a name; names are not modelled.

## Reading guide

- *Verdicts, oracles, plans.* The answers of the target are arbitrary functions
  of the number of runs so far and the bytes that are run, so termination and
  safety hold for inconsistent targets too; results about minimality ask for a
  consistent one, a function of the bytes alone.
- *Padding.* Packet decoders of the original read past the end of the trace
  buffer. Here the bytes after the end are zero.
- *Unsupported packets.* Cancel, mispredict and Q packets, an exact-match
  packet for a register that does not exist, and atom packets inside an
  exception packet go through parts that are not modelled. The decoder stops at
  them and says so.
- *Scoring.* An entry is always scored with the same set of hit bytes, and pids
  are not reused; both are stated as preconditions, as the type of the traces or
  as step conditions. `stale` are the entries that got cheaper since they were
  scored, `spoiled` the bytes whose holder got dearer than somebody else; every
  other byte is held by the cheapest entry that is not stale. In the runs of the
  fuzzer both are empty between any two steps.
- *Counters.* Counts of events that the original keeps in 64 bits are unbounded
  here; addresses, hashes, checksums and costs wrap around where they do there.
- *Floating point.* The factor 1.01 of the purge test is a real number.

## Model

| member | source | states |
|---|---|---|
| Bytes.NextP2 | AFL-ETM/afl-tmin.c:404-410 | doubling from one finds the least power of two that is at least the argument |
| Minimizer.Minimizer.Minimize | AFL-ETM/afl-tmin.c:414-634 | terminates for every sequence of verdicts within weight plus one passes; the buffer is the original or the last accepted one; under a consistent verdict the result is the function `Minimized` of the input and 1-minimal, and no aligned block of any tried size can go; under a monotone one, or if one pass was enough, no symbol and no character can be replaced either |
| Minimizer.Minimizer.RunTarget | AFL-ETM/afl-tmin.c:255-398 | a run appends its bytes to the history and answers by verdict; the last accepted buffer changes accordingly |
| Minimizer.Minimizer.NormalizeBlocks | AFL-ETM/afl-tmin.c:430-464 | block by block, in blocks of a 128th of the length rounded up to a power of two and of four bytes at least, what is not '0' already is replaced exactly when the verdict on the replacement accepts it |
| Minimizer.Minimizer.TryZeroBlock | AFL-ETM/afl-tmin.c:447-458 | exactly the block zeroed is run, and kept only when accepted |
| Minimizer.Minimizer.DeleteAllSizes | AFL-ETM/afl-tmin.c:480-542 | sweeps with halving block sizes from a sixteenth down to one byte; after a round without change, blocks of all these sizes are rejected |
| Minimizer.Minimizer.DeleteBlocks | AFL-ETM/afl-tmin.c:488-535 | under a consistent verdict the sweep is the function `Swept` of the buffer, skipped blocks included |
| Minimizer.Minimizer.TryDeletion | AFL-ETM/afl-tmin.c:517-533 | the buffer without the block is run and adopted exactly when accepted |
| Reduction.EqualNeighbours | AFL-ETM/afl-tmin.c:502-513 | deleting either of two equal neighbouring blocks gives the same bytes, which justifies the skip |
| Reduction.IrreducibleIsOneMinimal | AFL-ETM/afl-tmin.c:480-542 | rejection of all block sizes down to one means no single byte can be deleted |
| Minimizer.Minimizer.MinimizeAlphabet | AFL-ETM/afl-tmin.c:555-592 | a change lowers the number of bytes other than '0'; under a consistent verdict each symbol in turn is replaced if the rest is accepted without it |
| Minimizer.Minimizer.CountSymbols | AFL-ETM/afl-tmin.c:559-564 | the alphabet map counts exactly the symbols that occur |
| Minimizer.Minimizer.MinimizeCharacters | AFL-ETM/afl-tmin.c:608-627 | a change lowers the number of bytes other than '0'; under a consistent verdict each character in turn is replaced if that is accepted |
| Reduction.ZeroingLighter | AFL-ETM/afl-tmin.c:576-627 | replacing by '0' only, with an effect, lowers the measure of termination |
| Reduction.WithoutLighter | AFL-ETM/afl-tmin.c:525-531 | so does deleting a block |
| Reduction.IdleSweep | AFL-ETM/afl-tmin.c:488-535 | a sweep that changes nothing has every aligned block of its size rejected, skipped ones included |
| Reduction.IdleDeletion | AFL-ETM/afl-tmin.c:480-542 | deletion without effect means that no block of any tried size and no single byte can go |
| Reduction.IdleReplacing | AFL-ETM/afl-tmin.c:555-627 | the replacing stages have no effect if and only if no symbol and no character can be replaced |
| Reduction.MonotoneIsMinimal | AFL-ETM/afl-tmin.c:414-634 | if what is rejected stays rejected with more bytes replaced, the result is minimal in symbols and characters however many passes it took |
| Reduction.NormalizedIsNormal | AFL-ETM/afl-tmin.c:430-464 | under such a verdict block normalization leaves no aligned block that could be overwritten with '0' |
| Reduction.SweepIsMinimal | AFL-ETM/afl-tmin.c:488-535 | if what is rejected stays rejected with more bytes deleted, one sweep leaves no block of its size that could go, although it changed the buffer on its way |
| Reduction.BlocksComeFirst | AFL-ETM/afl-tmin.c:430-464 | a verdict under which only the normalization of a whole block makes progress, and the minimized case is all '0' |
| Reduction.SecondPassStopsEarly | AFL-ETM/afl-tmin.c:550 | a consistent verdict under which the result is not minimal: the second pass deletes nothing and stops |
| TopologyGraph.SplitSlaveGood | AFL-ETM/etm_mode/csaltools/cs_topology.py:299-312 | splicing a hidden funnel in front of a slave port keeps the graph well formed and its contraction the same |
| TopologyGraph.SplitMasterGood | AFL-ETM/etm_mode/csaltools/cs_topology.py:323-334 | so does splicing in a hidden replicator, by mirroring the graph |
| TopologyGraph.MirrorKeeps | AFL-ETM/etm_mode/csaltools/cs_topology.py:315-336 | the master side is the slave side of the mirrored graph |
| TopologyGraph.AddWireGood | AFL-ETM/etm_mode/csaltools/cs_topology.py:337-339 | entering a wire at a free place adds exactly its resolved request to the contraction |
| TopologyGraph.LinkGood | AFL-ETM/etm_mode/csaltools/cs_topology.py:288-339 | an ATB link between visible devices adds itself to the contracted topology and keeps all links made before |
| TopologyGraph.PlainLinkGood | AFL-ETM/etm_mode/csaltools/cs_topology.py:265-288 | links of the other kinds add themselves and never touch an ATB port |
| TopologyGraph.MasterReadyKeepsFree | AFL-ETM/etm_mode/csaltools/cs_topology.py:315-336 | making room at the master takes no slave port that was free |
| TopologyGraph.LinkLean | AFL-ETM/etm_mode/csaltools/cs_topology.py:288-339 | after a whole ATB link every hidden funnel has several inputs and every hidden replicator several outputs, if that was so before |
| TopologyGraph.PlainLinkLean | AFL-ETM/etm_mode/csaltools/cs_topology.py:265-288 | the other kinds of link add no hidden device |
| Topology.Device.FindLink | AFL-ETM/etm_mode/csaltools/cs_topology.py:158-177 | finds a link of the type at the port, or there is none |
| Topology.Platform.AddVisible | AFL-ETM/etm_mode/csaltools/cs_topology.py:105-139 | a device of the platform description enters without changing the graph, and the platform stays valid |
| Topology.Platform.RepointSlave | AFL-ETM/etm_mode/csaltools/cs_topology.py:306-310 | the link leaves the list of its old slave, loses its port number and enters the list of the funnel |
| Topology.Platform.RepointMaster | AFL-ETM/etm_mode/csaltools/cs_topology.py:328-332 | the same at the master end |
| Topology.Platform.SplitSlavePort | AFL-ETM/etm_mode/csaltools/cs_topology.py:299-312 | the heap operation does what the graph operation says, with a fresh hidden funnel |
| Topology.Platform.SplitMasterPort | AFL-ETM/etm_mode/csaltools/cs_topology.py:323-334 | the same with a fresh hidden replicator |
| Topology.Platform.SlavePlace | AFL-ETM/etm_mode/csaltools/cs_topology.py:288-314 | a new ATB link ends at the free port, at the hidden funnel already there, or at a new one |
| Topology.Platform.MasterPlace | AFL-ETM/etm_mode/csaltools/cs_topology.py:315-336 | and starts at the free port or at a hidden replicator |
| Topology.Platform.MakeLink | AFL-ETM/etm_mode/csaltools/cs_topology.py:265-339 | the whole constructor: contraction afterwards is contraction before plus the requested link, lists and ends stay consistent |
| Topology.Build | AFL-ETM/etm_mode/csaltools/cs_topology.py:265-339 | after any sequence of links every numbered port end has at most one link, contraction gives back exactly the requests, in order, and hidden devices stand only for ports that several links share |
| Topology.KnownMove | AFL-ETM/etm_mode/csaltools/cs_topology.py:502-521 | re-pointing keeps what the platform check tests: every link is in exactly the lists of its ends |
| ForkServer.StepKeepsInv | AFL-ETM/llvm_mode/afl-llvm-rt.o.c:95-171 | every step of server, fuzzer, timer or child keeps the protocol invariant |
| ForkServer.RunInv | AFL-ETM/simple.c:2402-2469 | it holds in every state of every run |
| ForkServer.ForkFindsNoChild | AFL-ETM/llvm_mode/afl-llvm-rt.o.c:120-130 | all earlier children have been reaped whenever the server forks |
| ForkServer.ContinueFindsStopped | AFL-ETM/llvm_mode/afl-llvm-rt.o.c:142-150 | SIGCONT only goes to a stopped child that nobody killed |
| ForkServer.RepliesInOrder | AFL-ETM/simple.c:2402-2442 | what is read as a pid is the pid of this request's child, what is read as a status is its status, nothing is left over, and the read of a status never finds the server dead |
| ForkServer.OneReplyPerRequest | AFL-ETM/simple.c:2402-2442 | each request gets one pid and then one status before the next request |
| ForkServer.ServerEnds | AFL-ETM/simple.c:6819-6833 | the server is dead if and only if fork failed or the timer of the handshake expired and its handler got to its kill; no wait fails and later timers never take the server for the child |
| ForkServer.GivesUpOnDead | AFL-ETM/simple.c:2143-2165 | the fuzzer exits only when the server is dead, and no request after a complete one finds it dead |
| ForkServer.ReapingNeverBlocks | AFL-ETM/llvm_mode/afl-llvm-rt.o.c:120-123 | the wait that writes off a killed child returns at once |
| ForkServer.NeverStuck | AFL-ETM/simple.c:2402-2469 | until the fuzzer gives up, in no reachable state is everyone blocked, whatever the child does |
| ForkServer.StepAdvances | AFL-ETM/simple.c:2402-2469 | every step of either program, the timer or the child uses up one of the at most 18 steps ahead of the next request |
| ForkServer.RequestsAreAnswered | AFL-ETM/simple.c:2402-2469 | after 19 more steps of any run every request made before has both its replies and a new one was made |
| ForkServer.TimeoutKills | AFL-ETM/simple.c:6819-6833 | after a run that timed out its child is dead; after a stop without timeout it is stopped and usable |
| ForkOutcomes.OutcomeIsRead | AFL-ETM/simple.c:2402-2442 | once the outcome of a run is settled (the child ended or stopped by itself, or was killed first) that is the status the fuzzer reads, whatever happens until then, except that a stop not yet noticed gives way to a kill |
| ForkOutcomes.DueMoves | AFL-ETM/llvm_mode/afl-llvm-rt.o.c:152-168 | while an outcome is on its way the server or the fuzzer can move without the timer, and a waiting server notes exactly that outcome |
| ForkOutcomes.StopIsNoticed | AFL-ETM/llvm_mode/afl-llvm-rt.o.c:156-164 | in persistent mode a server waiting for a child that stopped can go on by itself, and its next status is the stop |
| ForkOutcomes.StopIsRead | AFL-ETM/llvm_mode/afl-llvm-rt.o.c:156-168 | if a persistent child stops before it is killed the fuzzer reads the stop, and the child can be resumed if and only if the run did not time out |
| ForkOutcomes.NoStopIsRead | AFL-ETM/llvm_mode/afl-llvm-rt.o.c:156 | outside persistent mode no stop is ever noted, sent or read |
| ForkOutcomes.NextChild | AFL-ETM/llvm_mode/afl-llvm-rt.o.c:120-150 | the next request is served by the same child, without a fork, after a stop without timeout, and by a new child after anything else |
| Persistent.Child.Loop | AFL-ETM/llvm_mode/afl-llvm-rt.o.c:176-226 | the first call starts the count and clears the map, later calls stop the child and go on until the count is used up |
| Persistent.Child.Drive | AFL-ETM/llvm_mode/afl-llvm-rt.o.c:176-226 | the target's loop runs exactly as often as asked for (2^32 times for a count of 0, once outside persistent mode), with one stop between two runs and no tracing afterwards |
| Atoms.DecodeAtoms | AFL-ETM/decoder.c:879-1098 | for every atom header the format decoders emit exactly the atoms that the tables encode |
| Atoms.DecodeFormat6 | AFL-ETM/decoder.c:1025-1043 | COUNT plus three E atoms and one more are the row of the tables |
| Atoms.DecodeFormat5 | AFL-ETM/decoder.c:963-1008 | the five-atom patterns are the rows of the tables |
| Atoms.DecodeFormat4 | AFL-ETM/decoder.c:918-961 | the four-atom patterns are the rows of the tables |
| Atoms.FlagIsLastAtom | AFL-ETM/tracer.h:33-35 | an atom packet is never empty and the flag table holds its last atom |
| Atoms.UnpackPacked | AFL-ETM/tracer.h:33-34 | length and binary number together determine the string of atoms |
| Atoms.Sdbm | AFL-ETM/stream.c:70-75 | shifting and subtracting modulo 2^64 folds h to 9h plus the atom, first atom first |
| Atoms.FoldConcat | AFL-ETM/stream.c:118-129 | folding packet by packet is folding the concatenated atoms |
| AtomHash.HashIsExact | AFL-ETM/tracer.c:426-431 | up to twenty atoms the hash is the string in base nine, without wrap-around and below the masked bit |
| AtomHash.SharedHash | AFL-ETM/stream.c:70-75 | up to twenty atoms two strings share a hash if and only if they agree from their first E on |
| AtomHash.HashTellsApart | AFL-ETM/stream.c:70-75 | different strings of one length hash differently, also after the mask |
| AtomDigits.TwelveDigits | AFL-ETM/tracer.c:426-431 | differences of twelve base-nine digits 0 and 1 make a multiple of 2^16 only if all are 0 |
| AtomHash.LowBitsShared | AFL-ETM/tracer.c:426-431 | up to twelve atoms the low sixteen bits agree if and only if the strings differ in leading N atoms only |
| AtomHash.TakenLowBitsShared | AFL-ETM/tracer.c:410-431 | the same up to thirteen atoms when the last one is E |
| AtomHash.LongerAtomsCollide | AFL-ETM/tracer.c:410-431 | for every length from fourteen on, two different strings that end in E agree in the low sixteen bits |
| TraceEvents.WalkedConcat | AFL-ETM/stream.c:104-138 | walking over two stretches of events is walking over the whole |
| TraceEvents.PacketsMayBeCutAnywhere | AFL-ETM/stream.c:118-129 | edges and state do not depend on how atoms were put into packets |
| TraceEvents.AtomsAreConserved | AFL-ETM/tracer.c:410-436 | every atom after entry is charged to exactly one edge or still pending, in trace order |
| TraceEvents.EdgesAreProper | AFL-ETM/tracer.c:410 | every edge ends inside the program after a taken branch |
| TraceEvents.NoEdgeBeforeEntry | AFL-ETM/tracer.c:401-410 | nothing is recorded before the entry address was seen |
| TraceEvents.EntryStartsWalk | AFL-ETM/tracer.c:401-403 | the entry address starts the walk with nothing pending, whatever came before |
| TraceEvents.EdgeMade | AFL-ETM/tracer.c:410-436 | an address inside the program after a taken branch makes one edge of all that was pending |
| TraceEvents.InterruptionUnseen | AFL-ETM/tracer.c:404-417 | an exception, a handler outside the program and the return to where it struck leave no mark: the branch before is still pending |
| TraceEvents.InterruptionElsewhere | AFL-ETM/tracer.c:404-435 | a return to another address makes the edge there |
| TraceEvents.InterruptionEnds | AFL-ETM/stream.c:118-129 | branches end the interruption as if it had not been |
| TraceEvents.RecordedOneMore | AFL-ETM/tracer.c:423-429 | counting one cell more modulo 256 is the histogram of one edge more |
| TraceEvents.CellsOneMore | AFL-ETM/tracer.c:419-431 | the cell of an edge is its location against half of the location before it |
| MapCells.SameCell | AFL-ETM/tracer.c:426-431 | after the same predecessor two hashed edges of any length share a cell if and only if address plus hash agree in sixteen bits; the cleared bit and the wrap-around do not matter |
| MapCells.SameBlockCell | AFL-ETM/tracer.c:418-425 | in basic-block mode two edges share a cell if and only if address plus number of branches, four standing for more, agree in sixteen bits |
| MapCells.RepeatedEdge | AFL-ETM/tracer.c:418-431 | half of the location is remembered, so an edge taken twice in a row falls on cell 0 for exactly two locations modulo 2^17 |
| MapCells.BranchesAndCells | AFL-ETM/tracer.c:410-431 | edges to one address with up to thirteen atoms share a cell if and only if they differ in leading N atoms only; of one length, only if they are the same |
| MapCells.ThirteenIsTheLimit | AFL-ETM/tracer.c:410-431 | edges of one length up to n are all told apart if and only if n is at most thirteen |
| MapCells.UnseenBranches | AFL-ETM/tracer.c:397-437 | for every length from fourteen on, two traces along different branches leave the same map |
| Tracer.TablesPush | AFL-ETM/stream.c:118-129 | what the three tables do to hash, flag and count is what the emitted atoms do |
| Tracer.EdgeAdded | AFL-ETM/tracer.c:418-431 | map, predecessor and branch count after one more edge |
| Tracer.Tracer.AtomPacket | AFL-ETM/stream.c:118-129 | the fast path keeps hash, count and flag equal to those of the concatenated atoms since the last edge |
| Tracer.Tracer.TracerAddress | AFL-ETM/tracer.c:397-437 | an address event: entry, interruption and resumption, or an accepted edge counted in the map, in both modes |
| Tracer.Tracer.Accept | AFL-ETM/tracer.c:418-435 | an accepted address counts one cell and restarts the pending atoms |
| Tracer.Tracer.TracerOverflow | AFL-ETM/tracer.c:106-115 | an overflow is counted and changes nothing else |
| Tracer.Tracer.constructor | AFL-ETM/afl-fuzz.c:2999-3012 | a fresh run starts the walk, with the map as it is |
| Packets.TableIsFirstMatch | AFL-ETM/tracer.h:32 | for every header the lookup table gives the first entry of the packet list that matches |
| Packets.NothingAfterOverflow | AFL-ETM/stream.c:114-116 | after an overflow packet a trace reports nothing but, while synchronizing, further overflows |
| Packets.EdgesBeforeOverflow | AFL-ETM/stream.c:104-138 | the edges of a trace are those before its first overflow packet |
| Packets.PacketOverflowIsLast | AFL-ETM/decoder.c:251-299 | also for an overflow packet inside exception packets |
| Decoder.ReadField | AFL-ETM/decoder.c:132-138 | a field ends at the first byte without continuation bit, or fails after its maximum |
| Decoder.DecodeTraceInfo | AFL-ETM/decoder.c:125-206 | the sections announced by PLCTL with their limits; success resets the address registers once synchronized |
| Decoder.DecodeTimestamp | AFL-ETM/decoder.c:215-249 | how many bytes a time stamp and its cycle count take, with the special eighth byte |
| Decoder.DecodeResults | AFL-ETM/decoder.c:530-557 | how many bytes the payloads of a conditional result take |
| Decoder.DecodeExtension | AFL-ETM/decoder.c:87-123 | alignment, discard and overflow packets |
| Decoder.ShortAddress | AFL-ETM/decoder.c:606-635 | which bits of the address register a short address keeps, in both instruction sets |
| Decoder.LongAddress | AFL-ETM/decoder.c:647-699 | four bytes replace the lower half of the register, eight bytes all of it |
| Decoder.DecodeAddress | AFL-ETM/decoder.c:606-877 | all address packets: registers shift, the tracer sees the address, context bytes are skipped |
| Decoder.DecodeException | AFL-ETM/decoder.c:251-299 | exception packets with and without an embedded packet, and the malformed ones |
| Decoder.DecodeQuiet | AFL-ETM/decoder.c:208-596 | the lengths of all packets that report nothing |
| Decoder.Synchronize | AFL-ETM/decoder.c:1248-1272 | decoding starts at the first alignment packet followed by a valid trace info packet; overflow packets met on the way count |
| Decoder.DecodeStream | AFL-ETM/stream.c:77-140 | for every trace the map afterwards is the map before plus, modulo 256, the histogram of the cells of the edges of its events; with the outcome |
| PacketWriter.AddressReads | AFL-ETM/decoder.c:606-741 | an address written in eight or four bytes, as a short address of either instruction set or as a repeated one is decoded to itself, given the addresses before |
| PacketWriter.AddressContextReads | AFL-ETM/decoder.c:776-877 | an address with context is decoded to itself and takes one, two, five or six context bytes more, as its information byte announces |
| PacketWriter.QuietReads | AFL-ETM/decoder.c:208-596 | time stamps, cycle counts, commits, contexts, conditional and event packets, written in all their lengths, take exactly their own bytes and report nothing |
| PacketWriter.PacketReads | AFL-ETM/decoder.c:87-877 | every packet other than atoms, wherever it stands: its length, its events and the address registers afterwards |
| PacketWriter.PieceReads | AFL-ETM/stream.c:104-138 | decoding goes on behind every packet, atoms and bytes of no packet included, but ends at an overflow packet, whatever follows |
| PacketWriter.MalformedException | AFL-ETM/decoder.c:251-299 | an exception packet of no known kind reports the exception, and decoding goes on at its second byte |
| PacketWriter.EndlessCount | AFL-ETM/decoder.c:301-339 | a cycle count that never ends is no packet; decoding goes on behind its header |
| TraceWriter.AtomsWritten | AFL-ETM/stream.c:118-129 | however the compact writer packs atoms, they are walked as one string |
| TraceWriter.TraceReads | AFL-ETM/stream.c:104-138 | decoding what was written gives the events that were written, in order, up to an overflow packet, behind which nothing counts |
| TraceWriter.WrittenTraceDecodes | AFL-ETM/stream.c:77-140 | round trip for whole traces behind any bytes without a zero, synchronization included, in any choice of packets that can express them; behind an overflow packet anything may follow |
| TraceWriter.OverflowEndsTrace | AFL-ETM/decoder.c:87-123 | when decoding reaches the bytes 00 05 the events are those before it, the overflow, and nothing more whatever follows; so edges and map are those of the trace before it |
| TraceWriter.EarlyOverflow | AFL-ETM/stream.c:104-116 | an overflow packet before synchronization leaves nothing of the trace but itself |
| TraceWriter.HeaderTakes | AFL-ETM/decoder.c:879-1043 | the header chosen for a string of atoms stands for its first atoms, as a run or as up to three |
| TraceWriter.CompactTraceDecodes | AFL-ETM/stream.c:77-140 | every sequence of branches, even addresses and exceptions can be written, in the shortest address forms, and decodes to the same walk |
| Favorites.WinConsistent | AFL-ETM/afl-fuzz.c:1446-1461 | one slot changing hands keeps reference counts, compacted traces and slots in step |
| Favorites.PicksCover | AFL-ETM/afl-fuzz.c:1501-1517 | after the greedy loop every byte with a holder is hit by a pick |
| Favorites.PicksUseful | AFL-ETM/afl-fuzz.c:1501-1517 | each pick hits a byte that no earlier pick hits |
| Favorites.PickingTake | AFL-ETM/afl-fuzz.c:1501-1517 | the entry picked at a slot was not picked before |
| Favorites.ScoredBest | AFL-ETM/afl-fuzz.c:1433-1465 | a scoring keeps every byte that is not spoiled with the cheapest entry that is not stale; the scored entry is no longer stale, and bytes that the cheapest entry takes are no longer spoiled |
| Favorites.ChangedBest | AFL-ETM/afl-fuzz.c:1428 | a scored entry that got cheaper is stale until it is scored again; one that got dearer would spoil exactly the bytes it holds on which somebody else now costs less; the same cost changes nothing |
| Favorites.CostChangeExact | AFL-ETM/afl-fuzz.c:1428-1445 | for a byte and a new cost, exactly when the holder is the cheapest afterwards |
| Favorites.ScoringExact | AFL-ETM/afl-fuzz.c:1433-1465 | for a byte and a scoring, exactly when the holder is the cheapest afterwards |
| Favorites.RescoredExact | AFL-ETM/afl-fuzz.c:5581-5631 | a new cost and then a scoring leave the cheapest entry in place unless the entry held the byte and now costs more than somebody else there; a lower cost, as after a trim, always does |
| Favorites.ChangedFactorBreaksBest | AFL-ETM/afl-fuzz.c:1441-1456 | what the scoring alone does not prevent: were a holder to get dearer after it was scored, an entry worse than one turned away before could get in |
| Queue.MinimizeBits | AFL-ETM/afl-fuzz.c:1401-1412 | the compacted trace has the bit of exactly the bytes that were hit |
| Queue.ClearBits | AFL-ETM/afl-fuzz.c:1508-1510 | and-not over a compacted trace removes exactly its bits |
| Queue.Fuzzer.UpdateBitmapScore | AFL-ETM/afl-fuzz.c:1425-1467 | slot by slot: the entry takes a hit byte from nobody or from a holder that costs at least as much, ties included; every other slot keeps its holder |
| Queue.Fuzzer.ScoreByte | AFL-ETM/afl-fuzz.c:1433-1465 | one byte of that loop, references and compacted traces included |
| Queue.Fuzzer.EntryInvariant | AFL-ETM/afl-fuzz.c:1425-1467 | in every reached state the reference count is the number of slots held, the compacted trace exists exactly when it is positive and has the bit of every slot held |
| Queue.Fuzzer.HolderInvariant | AFL-ETM/afl-fuzz.c:1425-1467 | every byte ever scored has a holder, which unless the byte is spoiled costs no more than any entry scored there that is not stale |
| Queue.Fuzzer.AddToQueue | AFL-ETM/afl-fuzz.c:936-969 | one entry and one pending entry more, invariant kept |
| Queue.Fuzzer.CullQueue | AFL-ETM/afl-fuzz.c:1476-1526 | the favorites are the greedy picks, cover every byte with a holder, and the counters agree |
| Queue.Fuzzer.PickAt | AFL-ETM/afl-fuzz.c:1501-1517 | one slot of the greedy loop, with the bit map of bytes still to cover |
| Queue.Fuzzer.FinishEntry | AFL-ETM/afl-fuzz.c:7702-7706 | the pending counters keep counting unfuzzed and favored unfuzzed entries |
| Queue.Fuzzer.SetCost | AFL-ETM/afl-fuzz.c:3505-3506 | a new cost keeps the invariant; what becomes stale or spoiled is stated exactly, and nothing does when the entry was never scored |
| Queue.Fuzzer.BeginCalibration | AFL-ETM/afl-fuzz.c:3320 | a calibration counts as failed until it succeeds, invariant kept |
| Queue.Fuzzer.FinishCalibration | AFL-ETM/afl-fuzz.c:3505-3516 | cost, then scoring: the entry is not stale afterwards, and no byte is spoiled by a first calibration or a cost that did not rise |
| Queue.Fuzzer.FinishTrim | AFL-ETM/afl-fuzz.c:5581-5631 | a trimmed entry costs no more, is scored again and spoils nothing, as long as 64 bits hold its cost before |
| FuzzLoop.Fuzz | AFL-ETM/afl-fuzz.c:9459-9540 | over whole runs, dry run included: every byte is held by the cheapest of all entries ever scored on it, up to the one entry whose trim was cut short when the fuzzer stopped; the queue is what `PlayedAll` makes of the initial inputs, entry by entry, and the run stops exactly when a stop is noticed |
| FuzzLoop.FuzzOne | AFL-ETM/afl-fuzz.c:6102-6142 | everything found enters the queue, in order, with its length, and scored on its own trace if and only if its calibration succeeded, exactly when the entry gets past calibration and trim; what becomes of the entry itself and when the round stops; no scored entry is left waiting for a scoring and no holder gets dearer, unless the fuzzer stops |
| FuzzLoop.CalibrateCase | AFL-ETM/afl-fuzz.c:3295-3516 | only entries without a successful calibration get here; afterwards an entry is scored if and only if its calibration succeeded |
| FuzzLoop.PerformDryRun | AFL-ETM/afl-fuzz.c:3588-3682 | the initial inputs are calibrated once each, and one that fails is given up |
| FuzzLoop.TrimCase | AFL-ETM/afl-fuzz.c:5504-5640 | a trimmed entry never costs more, and is scored again unless the trim is given up |
| FuzzLoop.SaveInput | AFL-ETM/afl-fuzz.c:4107-4130 | a find is added with its length and calibrated at once, all other entries stay as they were, invariant kept |
| FuzzLoop.SaveInputs | AFL-ETM/afl-fuzz.c:4107-4130 | all finds of a round, in order, behind the entries there were |
| QueueLife.QueueGrows | AFL-ETM/afl-fuzz.c:6102-6142 | exactly when a round's finds enter the queue and the entry counts as fuzzed, from failures, outcome, trim and stop; each new entry has its find's length and, if calibrated, its time |
| QueueLife.RoundChanges | AFL-ETM/afl-fuzz.c:6102-6142 | what a round changes of the entry itself, field by field, and that it changes no other |
| QueueLife.RoundStops | AFL-ETM/afl-fuzz.c:6114-6142 | exactly when a request to stop is noticed |
| QueueLife.RunInTwo | AFL-ETM/afl-fuzz.c:9493-9540 | rounds after a stop do not happen, and without one the run goes on where it was |
| QueueLife.RunKeeps | AFL-ETM/afl-fuzz.c:9493-9540 | over any run no entry is lost or gets longer, a trim is final, so is a calibration that succeeded, and an entry given up is left alone |
| QueueLife.RunIsSound | AFL-ETM/afl-fuzz.c:6102-6142 | no entry fails more than three calibrations, only calibrated entries are trimmed, and only trimmed ones fuzzed, outside dumb mode |
| QueueLife.FailedInputsRest | AFL-ETM/afl-fuzz.c:3638-3690 | an initial input that failed its calibration is never calibrated, trimmed or fuzzed in any run |
| QueueLife.NothingLost | AFL-ETM/afl-fuzz.c:9493-9540 | with all inputs calibrated and no stop the queue ends up with the inputs followed by everything found, in order, and every entry taken up was fuzzed |
| CoverageMap.HasNewBits | AFL-ETM/afl-fuzz.c:1039-1110 | the scan in 32-bit or 64-bit words gives the bytewise answer and the bytewise new map |
| CoverageMap.WordsBytewise | AFL-ETM/afl-fuzz.c:1065-1095 | one word of and, and of and-not, is the bytes one after the other |
| CoverageMap.ScanWord | AFL-ETM/afl-fuzz.c:1065-1095 | one word of the scan |
| CoverageMap.VerdictExact | AFL-ETM/afl-fuzz.c:1065-1110 | the answer is 2 if and only if the scan uses up a byte that was 0xff, and positive if and only if it clears a bit |
| CoverageMap.FindsAreBounded | AFL-ETM/afl-fuzz.c:1039-1142 | over any run of calls, finds are at most the bits set at the start, and new bytes at most the pristine ones |
| CoverageMap.SecondTimeNothing | AFL-ETM/afl-fuzz.c:1093 | a trace just recorded brings nothing new |
| CoverageMap.NewBytesUsePristine | AFL-ETM/afl-fuzz.c:1075-1093 | an answer of 2 uses up a byte that was 0xff and none ever comes back |
| PopCount.CountBits | AFL-ETM/afl-fuzz.c:1116-1142 | the parallel count adds up to the number of set bits of the map |
| PopCount.WordBits | AFL-ETM/afl-fuzz.c:1134-1136 | shifts, masks and one multiplication count the bits of a word |
| PopCount.PairStep | AFL-ETM/afl-fuzz.c:1134 | the first step counts in every two-bit field |
| PopCount.NibbleStep | AFL-ETM/afl-fuzz.c:1135 | the second adds the fields of every nibble |
| PopCount.ByteStep | AFL-ETM/afl-fuzz.c:1136 | the third adds the nibbles of every byte |
| PopCount.SumInTopByte | AFL-ETM/afl-fuzz.c:1136 | the multiplication adds the bytes up in the highest one |
| PopCount.CountNon255Bytes | AFL-ETM/afl-fuzz.c:1177-1200 | counts the bytes that are not pristine |
| AtomCoverage.AllButTheUnion | AFL-ETM/afl-fuzz.c:4119-4121 | clearing one saved trace after the other leaves all ones minus their union |
| AtomCoverage.NothingNewIffContained | AFL-ETM/afl-fuzz.c:9020-9026 | against that map a trace brings nothing new if and only if the union contains it |
| AtomCoverage.AfterPurge | AFL-ETM/afl-fuzz.c:9020-9026 | so right after a purge a trace has no new atom bits exactly when the saved inputs have them all |
| AtomCoverage.Hybrid.SaveIfInteresting | AFL-ETM/afl-fuzz.c:4025-4123 | which inputs are kept, which checksums are remembered, exactly when a purge comes with the second run, and what the three maps are afterwards; the third stays all ones minus the union of saved traces |
| AtomCoverage.Hybrid.Purge | AFL-ETM/afl-fuzz.c:9020-9053 | when a purge happens and that it leaves all ones minus the union of saved traces |
| AtomCoverage.WorthwhileExact | AFL-ETM/afl-fuzz.c:9024 | a purge is worthwhile if and only if 100 times the address coverage is at most 101 times the last one, or twice the saved atom coverage is below the atom coverage |
| AtomCoverage.HitsCounted | AFL-ETM/afl-fuzz.c:1177-1200 | coverage is the number of bytes that are not 0xff |
| AtomCoverage.Hybrid.CountRun | AFL-ETM/afl-fuzz.c:3025-3031 | a counted run, and exactly when it purges |
| AtomCoverage.Hybrid.ClearFilter | AFL-ETM/afl-fuzz.c:6027-6028 | an empty filter stops nothing |
| AtomCoverage.FilterMixesHalves | AFL-ETM/afl-fuzz.c:4027-4031 | exactly which checksums two tables of halves stop |
| AtomCoverage.FilteredExact | AFL-ETM/afl-fuzz.c:4027-4031 | a run is filtered if and only if the halves of its checksum are those of two rejected ones |
| Checksum.Hash32 | AFL-ETM/hash.h:71-100 | the loop computes the fold of the rounds and the finalizer |
| Checksum.RoundBijective | AFL-ETM/hash.h:82-88 | a round is a bijection of the running state |
| Checksum.RoundBijectiveInWord | AFL-ETM/hash.h:82-88 | and of the word |
| Checksum.FinishBijective | AFL-ETM/hash.h:92-96 | the finalizer is a bijection |
| Checksum.OneWordChangesHash | AFL-ETM/hash.h:71-100 | maps of one length that differ in exactly one word get different checksums |
| Checksum.EveryHashReachable | AFL-ETM/hash.h:71-100 | at every position some word gives any wanted checksum |
| Checksum.KnownAnswer | AFL-ETM/hash.h:71-100 | the checksum of one word with the fuzzer's seed, digit by digit |
| Dictionary.Dump | AFL-ETM/libtokencap/libtokencap.so.c:99-135 | prints the escaped token within its fixed buffer, a text token up to its first NUL, and nothing outside the length limits |
| Dictionary.ParseLine | AFL-ETM/afl-fuzz.c:1734-1850 | the result is the function `Parsed` of line and level, which DictionaryLines describes from the text of the line |
| DictionaryLines.LevelDecides | AFL-ETM/afl-fuzz.c:1763-1788 | any label, a level in decimal or none, any glue and a printed token, with white space around: the token if there is no level or it is at most that of the dictionary, else nothing |
| DictionaryLines.LineReads | AFL-ETM/afl-fuzz.c:1734-1850 | the same for keywords in any spelling, escapes of all kinds included; empty, too long and misspelled keywords give their complaints, unless the level is too high |
| DictionaryLines.TokenLines | AFL-ETM/afl-fuzz.c:1734-1850 | a line gives a token if and only if it is written in such a way, up to its first NUL |
| DictionaryLines.KeywordReads | AFL-ETM/afl-fuzz.c:1798-1837 | keywords are read byte by byte up to the first thing that is no spelling |
| DictionaryLines.SignedNumber | AFL-ETM/afl-fuzz.c:1772 | white space, a sign and digits give the number |
| DictionaryLines.CommentSkipped | AFL-ETM/afl-fuzz.c:1750-1752 | a comment counts for nothing, whatever it holds |
| DictionaryLines.BlankSkipped | AFL-ETM/afl-fuzz.c:1741-1752 | so does a blank line |
| DictionaryLines.UnclosedLine | AFL-ETM/afl-fuzz.c:1754-1759 | every other line has to end with a quote |
| DictionaryLines.BehindNul | AFL-ETM/afl-fuzz.c:1741-1748 | nothing behind a NUL is looked at |
| DictionaryLines.Classes | AFL-ETM/afl-fuzz.c:1743-1817 | which characters are white space, label bytes, glue, digits and hexadecimal digits |
| DictionaryLines.HexLetters | AFL-ETM/afl-fuzz.c:1796-1822 | hexadecimal digits in either case count from 0 to 15 |
| DictionaryLines.FileInPieces | AFL-ETM/afl-fuzz.c:1734-1752 | a file is read line by line, a line of more than 8191 bytes in pieces, up to the first complaint |
| Dictionary.ReadKeyword | AFL-ETM/afl-fuzz.c:1798-1837 | undoes the escapes or complains |
| Dictionary.LoadFile | AFL-ETM/afl-fuzz.c:1722-1854 | the tokens of a file line by line, or the first complaint |
| Dictionary.UnescapeBody | AFL-ETM/afl-fuzz.c:1798-1837 | undoing the escapes of any bytes gives the bytes |
| Dictionary.LineParses | AFL-ETM/afl-fuzz.c:1734-1850 | a printed line parses to what was printed, if that is not empty |
| Dictionary.DumpedTokenParses | AFL-ETM/libtokencap/libtokencap.so.c:99-135 | every printed token comes back, unless it is a text token that starts with NUL |
| Dictionary.CaptureFileLoads | AFL-ETM/afl-fuzz.c:1722-1854 | a file of captured tokens loads to exactly those tokens or fails at the first empty one |
| Extras.Stage.Overwrite | AFL-ETM/afl-fuzz.c:6988-7028 | every run is the input with exactly one eligible token, every eligible overwrite is the input or was run, the buffer is restored, the counters meet; unless a run asked to stop, and then that was the last one |
| Extras.EligibleExact | AFL-ETM/afl-fuzz.c:7001-7011 | which pairs of offset and token are due: the token has room, was not dropped, and some byte of its span lies in a marked stretch of eight |
| Extras.Stage.TryOffset | AFL-ETM/afl-fuzz.c:7097-7128 | all tokens at one offset without restoring in between, then one copy of the last length restores the buffer; cut short exactly by a run that asks to stop |
| Extras.Stage.TryToken | AFL-ETM/afl-fuzz.c:7001-7021 | one token: run if and only if it is eligible and not there already; stops if and only if that run asks for it |
| Extras.OverAgain | AFL-ETM/afl-fuzz.c:6994-7017 | a token over one that is not longer leaves nothing of the first |
| Extras.OverLonger | AFL-ETM/afl-fuzz.c:6994-7017 | over a longer one it is clean if and only if the rest is what the input had |
| Extras.AnyEffect | AFL-ETM/afl-fuzz.c:7009 | the search of the effector map decides whether the span has an effect |
| Extras.Insertion.InsertAll | AFL-ETM/afl-fuzz.c:7044-7075 | the runs are all insertions, offset by offset and token by token, built on one growing head, up to the first that asks to stop |
| Extras.InsertionsAreAll | AFL-ETM/afl-fuzz.c:7046-7063 | those insertions are each token at each offset, the end included, if the result has at most a megabyte, and nothing else |
| Extras.InsertionOrder | AFL-ETM/afl-fuzz.c:7046-7063 | their number and order, when all fit |
| Trim.Trimmer.TrimCase | AFL-ETM/afl-fuzz.c:5520-5634 | the first run leaves out a sixteenth of the length, rounded up to a power of two, or four bytes, at that offset; every size from there, halving, down to a thousandth of what is left is tried; with a consistent target nothing changes if and only if no aligned block of any such size after the first could go; a subsequence that keeps the first four bytes is left; it gives up if and only if a run was a reason to, and file and buffer differ if and only if another run had closed a gap before |
| Trim.Trimmer.AllPasses | AFL-ETM/afl-fuzz.c:5529-5612 | the passes of the stage: what is left is the function `Stage`, and each fitting size opens a pass |
| Trim.StageIdle | AFL-ETM/afl-fuzz.c:5529-5612 | a stage changes nothing and is not given up if and only if every aligned block of every tried size is refused |
| Trim.PassIdle | AFL-ETM/afl-fuzz.c:5540-5608 | the same for one pass |
| Trim.Trimmer.Pass | AFL-ETM/afl-fuzz.c:5540-5608 | a pass makes one run for each block after the first, however the runs turn out, unless one is a reason to give up, and then that is the last; what it leaves is the function `Passed` |
| Trim.GivesUpAfterTrimming | AFL-ETM/afl-fuzz.c:5561 | two runs after which buffer and file differ |
| Trim.Trimmer.TryGap | AFL-ETM/afl-fuzz.c:5552-5601 | the buffer with a gap is run and the gap closes exactly when the trace is the same |
| Trim.Trimmer.WriteWithGap | AFL-ETM/afl-fuzz.c:3236-3262 | writes everything but the gap |
| Trim.TrimmedStillSame | AFL-ETM/afl-fuzz.c:5581-5601 | with a consistent target what is left still gives the same trace |
| Trim.BlocksQuotient | AFL-ETM/afl-fuzz.c:5546-5548 | the number of runs of a pass is a rounded-up quotient |
| Arith.CouldBeArith | AFL-ETM/afl-fuzz.c:5862-5934 | true if and only if the values are equal or an arithmetic stage turns one into the other on one byte, one aligned word in either order, or the whole value in either order |
| Arith.NearIsAdjusted | AFL-ETM/afl-fuzz.c:5883-5884 | two wrapped differences decide whether 1 to 35 was added or subtracted |
| Arith.DifferingBytes | AFL-ETM/afl-fuzz.c:5870-5877 | the number of differing bytes and the last differing pair; the only one if there is one |
| Arith.SwapTwice | AFL-ETM/types.h:64-69 | swapping byte order twice changes nothing |

## Left out

- Decoder.DecodeException: an atom packet inside an exception packet, which goes to the separate 64-atom scheme; decoding stops there and says so.
- Decoder.DecodeStream: packets that reach the separate 64-atom scheme (cancel, mispredict, atom packets inside an exception packet), Q packets and exact-match packets for a fourth register; decoding stops there and says so.
- Decoder.DecodeQuiet: the values of time stamps, cycle counts, commits, contexts and conditional instructions, which never reach the map; only their lengths are modelled.
- Tracer.Tracer.TracerOverflow: the speculation depth and conditional keys, which nothing reads on this path; exception_nums and atom_nums, which are only displayed.
- AtomHash.HashTellsApart: says nothing about the whole hash of strings longer than twenty atoms.
- Trim.Trimmer.TrimCase: the clean trace kept for scoring, the mode switch around the stage and the screen updates.
- AtomCoverage.Hybrid.Purge: how the next purge interval is computed, a floating-point heuristic; the interval is a parameter.
- AtomCoverage.Hybrid.SaveIfInteresting: queue entries, files, calibration, the frequency controller, and faults other than the expected one.
- Topology.Platform.MakeLink: names, printing, platforms without auto-split (which stop with an assertion when a port is taken) and the search for paths.
- ForkServer.NeverStuck: a child may stop or end at any time; that it follows the persistent loop is not used. Pids are fresh at every fork. What the server does after the fuzzer exited, and signals other than the timer's, are not modelled.
- Persistent.Child.Loop: the two bytes of coverage state that every run starts with.
- Queue.Fuzzer.UpdateBitmapScore: an entry is assumed to be scored on the same bytes each time; a target with variable behaviour breaks that.
- FuzzLoop.Fuzz: an entry hits the same bytes in every run, and a calibrated run takes less than 2^32 microseconds. Which entry comes next, the random skips and the imports from other fuzzers are an arbitrary order and arbitrary finds; the end of the process on a fatal error is the end of the run.
- Extras.Stage.Overwrite: the random choice among more than 200 tokens is an arbitrary function; the order of equal-sized tokens after sorting is arbitrary too.
- Dictionary.ParseLine: level numbers that do not fit an int, and the smallest and largest token length that the loader reports.
- Checksum.Hash32: the 64-bit flavour.
- The fork-server loop of afl-fuzz.c, which sends one more message per run than this server reads (AFL-ETM/afl-fuzz.c:2964).
- The exact test for reachability by bit flips, whose patterns do not follow the bit order of the flipping stages across bytes.
- Synchronization with other fuzzers, the status screen, statistics, option parsing, directory set-up, shared memory, sysfs and signals.
- The loaders and printers of the topology tools, the allocator shims, the compiler wrappers, the assembly payload and the LLVM pass.
