# Verified model of the overlay pipeline

The port runs console code natively. Some of that code, the overlays, is loaded from disc into RAM at run time, so
the tools around the port have to unpack it, find the functions in it, publish compiled shards of it into a shared
cache, and generate the C tables and dispatchers that decide, while the game runs, which compiled function stands for
the bytes that are now in memory. This project models that pipeline in Dafny and proves what the tools rely on:
window decoders that mean what the stream format means, a control-flow walk measured against a plain traversal,
a lock-free publication protocol that never shows a half pair to the loader, tables and dispatchers that answer
exactly and refuse to guess, and a census whose closure claim is a bijection.

`dafny verify dfyconfig.toml` checks everything. Functions that the tools write as expressions are functions here;
loops that fill tables, queues and sets are methods with the same loops, each proved against a function or a predicate
that does not mention the loop.

| file | what it models |
|---|---|
| `Lzss.dfy`, `LzssEncoding.dfy` | both LZSS decoders over a circular window, their meaning on output history, packets of members; a reference encoder that the tools do not have, as the decoders' inverse |
| `CutoverTable.dfy` (with `Bits.dfy`) | the cutover hash table, built with unbounded integers, probed by emitted 32-bit C |
| `Discovery.dfy` | instruction classes, jump tables, the control-flow walk of one function |
| `Seeds.dfy`, `SeedGaps.dfy` | which captured addresses become functions, and with which extent; a capture whose result is not closed under calls |
| `Manifest.dfy` | the text of `.ranges` manifests and its readers |
| `Publication.dfy`, `Capture.dfy` | publishers and capture workers, interleaved at every file-system operation |
| `Dispatch.dfy` (with `Sorting.dfy`) | normalized variants, the emitted dispatcher and its shards |
| `NativeSymbols.dfy` | code identities and the guards of native mod symbols |
| `BodySplit.dfy` | packing generated functions into translation units |
| `BaseVotes.dfy` | recovering a load address by voting |
| `StaticCensus.dfy` | extents, scanners, identifiers and the review gate of the static census |
| `Detector.dfy` | the anti-blinker gate of the missing-patch detector |

SHA-256, the live RAM, the candidate-note callback and the iteration order of Python sets are parameters: the theorems
hold for every choice of them. Injectivity of SHA-256 is assumed in two places,
`CodeIdentity.DigestMatchesIffCodeIsThere` and `NativeSymbols.AvailableIffBytesAreThere`.

## What does not hold

Nine plausible properties are false of the code. For each there is an input that breaks it and the exact condition; for
the second one, two conditions of which either suffices.

- The walk does not decode everything reachable: delay slots are marked visited and never decoded, so code behind a slot
  that is itself a jump target is missed (`FunctionWalk.MarkedSlotCanHideCode`). It decodes exactly what is reached and
  readable if and only if, in a plain breadth-first traversal of the successor edges, no instruction comes after the
  one whose delay slot it is (`FunctionWalk.DecodesAllReachedIffNoneShadowed`); code that never jumps into a delay slot
  is such a case (`FunctionWalk.SeparateSlotsAreHarmless`).
- What a root's final function calls need not be a root. A root found later can lower a cap after the function was
  walked; the shorter walk can then decode a call that the longer one had hidden in a delay slot, and nobody walks it
  again (`SeedGaps.FinalFunctionCanCallNonRoot`). It does not happen to a root whose cap stayed, nor to one whose walk
  decoded everything it reached (`SeedClassification.FinalCalleesAreRoots`).
- Normalization is not independent of input order: two inputs with one key and different image identities keep
  whichever came first (`OverlayVariants.OrderCanMatter`). The outcome, refusal included, is independent of order if and
  only if some input lacks authority, or all inputs of some key lack an image identity, or equal keys carry equal image
  identities (`OverlayVariants.OrderIndependentIffOneImage`).
- Coverage can list what was never published. A publisher that stops between its two links leaves a manifest without a
  DLL (`Publication.StopLeavesOrphan`, for every job); that stem can never be published again
  (`Publication.OrphanBlocksForever`), and the readers count the manifest, so a later session skips a capture whose
  functions are in no pair (`CaptureWorkers.SessionsCanLoseFunctions`). A load is sound if and only if every identity a
  lone manifest lists is also in a published pair (`CaptureWorkers.LoadIsSoundIff`), and all sessions from a cache are
  sound if and only if that holds of every region still to be captured (`CaptureWorkers.SessionsAreSoundIff`).
- A publisher does not always remove its staged DLL: behind a stopped publisher, any other publisher of the stem ends
  in a conflict and leaves it (`Publication.ConflictLeavesStagedDll`). A publisher left alone removes it if and only if
  the stem is free or already shows its manifest beside a DLL (`Publication.AloneDropsStagedDllIff`). In every
  interleaving, one that ends without an I/O error leaves it if and only if, when it came to compare, the cache did not
  show its manifest beside a DLL (`Publication.StagedDllStaysIffOtherPair`).
- The static census and the walk do not agree on what branches: coprocessor branches are known to the census alone, and
  `regimm` words outside the eight branches are branches to the walk alone (`CensusScan.CensusAndWalkCanDisagree`).
  They agree on every other word (`CensusScan.CensusAndWalkAgreeIff`).
- The detector's limit does not hold for every clock (`Detector.BackwardsClockBreaksTheLimit`). It holds for every run
  with given timestamps if and only if no timestamp that a later one left behind by more than the window is met again
  within one window by a still later one (`Detector.LimitedIffNoReturn`). Clocks that never step back are such
  (`Detector.InOrderNeverReturns`), and a step back that stays clear of what has expired does no harm.
- The dispatcher's probe, which the generated code calls read-only, is not: it counts checks and misses
  (`Dispatcher.ProbeCanCount`). It leaves the counters alone if and only if the identity gate refuses the call
  (`Dispatcher.ProbeCountsUnlessGated`); hits it never counts.
- Not every variant that is accepted and emitted can ever run (`Dispatcher.UnreachableEntry`, `Dispatcher.TwinsNeverRun`).
  Some call in some memory runs it if and only if its address is in the segment that calls are looked up in, what it
  needs in memory is consistent, and no other variant of the entry needs only some or all of the same
  (`Dispatcher.SomeCallRunsIff`).

## Model

| member | source | states |
|---|---|---|
| `LzssHistory.DecodeIsTotalAndBounded` | tools/census_disc_overlays.py:121-165 | a stream decodes if and only if its header is present and in range; then to exactly the declared length, from at most target + ceil(target / 8) + 5 bytes |
| `LzssEncoding.DecodeUndoesEncode` | tools/census_disc_overlays.py:117-165 | for every list of literals and matches, stored in the format anywhere in a file, decoding there gives what the tokens mean, consumes exactly the encoding and is not truncated; this fixes header order, control bits, distance and length fields |
| `LzssEncoding.EveryPayloadHasAStream` | tools/extract_disc_overlays.py:89-131 | every payload of a legal size is what some stream decodes to |
| `LzssHistory.GroupsConsumption` | tools/census_disc_overlays.py:152-164 | from any point of any stream, what is still consumed is bounded by what is still to be written and one control byte per eight of it |
| `LzssHistory.GroupsAreLocal` | tools/census_disc_overlays.py:135-164 | decoding that never reads past `end` is the same on the slice alone, truncation flag included, for every start, end and state |
| `LzssHistory.MemberLocality` | tools/census_disc_overlays.py:419-426 | the test `start + consumed <= end` holds if and only if the member's slice, decoded alone, gives the same payload, consumption and flag |
| `LzssWindow.SlotAfterWrite` | tools/extract_disc_overlays.py:110-116 | writing one byte changes exactly one slot of the window, described by output history alone |
| `LzssWindow.SlotIsBack` | tools/extract_disc_overlays.py:124-126 | a window read at distance d is the byte written d bytes ago (4096 for 0, zero before the start), for every start position of the window |
| `LzssWindow.Decoder.ReadOr` | tools/census_disc_overlays.py:135-142 | reading past the end sets the flag, yields the fallback and does not move |
| `LzssWindow.Decoder.Emit` | tools/census_disc_overlays.py:144-150 | the window stays the last 4096 bytes of the history, and nothing is written past the target |
| `LzssWindow.Decoder.Copy` | tools/census_disc_overlays.py:158-160 | a copy out of the window, overlapping or clipped, is the copy out of the history |
| `LzssWindow.Decoder.Group` | tools/census_disc_overlays.py:154-164 | the items of a control byte, with the early stop, are those of the history decoder |
| `LzssWindow.Decoder.Run` | tools/census_disc_overlays.py:152-164 | the whole loop ends and computes the history decoding, wherever the window starts |
| `LzssWindow.DecompressWithStatus` | tools/census_disc_overlays.py:117-165 | the census decoder is the meaning of the stream for every data, offset and limit, errors included |
| `LzssWindow.Decompress` | tools/extract_disc_overlays.py:89-131 | the extractor's decoder is that meaning from offset 0 at 8 MiB, so the two tools agree |
| `Packet.Offsets` | tools/census_disc_overlays.py:168-186 | an accepted table has boundaries in order, inside the file, ending at its end |
| `Packet.OffsetsAreThePacketTable` | tools/census_disc_overlays.py:168-186 | a table is accepted if and only if its words never step back from the end of the header to the end of the file, and is read as it stands |
| `Packet.MembersTile` | tools/census_disc_overlays.py:415-419 | the members lie end to end: no byte after the header belongs to none or to two |
| `Packet.AcceptedMembersStandAlone` | tools/census_disc_overlays.py:415-426 | a member of any packet is accepted if and only if its own slice is a stream with the same result, and the extractor gives that payload for it |
| `Bits.AndMask` | tools/native_render_overlay_ranges.py:346-351 | masking with 2^k - 1 is the remainder, for integers of any size |
| `CutoverTable.HashesAgree` | tools/native_render_overlay_ranges.py:348-349 | Python's unbounded hash and the wrapped 32-bit hash of the emitted C give one slot under a mask of at most 32 bits |
| `CutoverTable.Sorted` | tools/native_render_overlay_ranges.py:337-341 | the sites in strictly rising order, each once |
| `CutoverTable.Capacity` | tools/native_render_overlay_ranges.py:342-344 | the capacity is the least power of two that is at least twice the sites |
| `CutoverTable.FindFree` | tools/native_render_overlay_ranges.py:350-351 | probing ends at the first free slot after the home, whenever one slot is free |
| `CutoverTable.StoreKeepsReachable` | tools/native_render_overlay_ranges.py:347-352 | storing at the first free slot keeps every stored site reachable from its home without a gap |
| `CutoverTable.Insert` | tools/native_render_overlay_ranges.py:347-352 | one insertion adds that site to the contents, loses none, and keeps all reachable |
| `CutoverTable.BuildTable` | tools/native_render_overlay_ranges.py:342-352 | the table holds exactly the sites, as a multiset, at load at most one half, all reachable |
| `CutoverTable.PrintedHoldsSites` | tools/native_render_overlay_ranges.py:366-372 | printing the slots loses no site, and an empty row is none |
| `CutoverTable.Probe` | tools/native_render_overlay_ranges.py:384-393 | the emitted loop answers membership both ways; an empty slot proves absence |
| `CutoverTable.CutoverRelevant` | tools/native_render_overlay_ranges.py:376-394 | for every 32-bit pc and instruction: true if and only if the site is in the set |
| `CutoverTable.PcRelevant` | tools/native_render_overlay_ranges.py:396-404 | true if and only if some site has that masked pc |
| `CutoverTable.SiteAt` | tools/native_render_overlay_ranges.py:408-422 | the counting-down scan writes the index-th stored site to the pointers that are not NULL, nothing past the last, and reports it found only when neither is NULL |
| `CutoverTable.EnumerationIsExact` | tools/native_render_overlay_ranges.py:406-422 | indices 0 to count - 1 list every site exactly once and nothing else |
| `CutoverTable.EmitColdCutoverTable` | tools/native_render_overlay_ranges.py:334-372 | the printed rows hold exactly the non-call cutover sites of all variants, at most half of the rows are filled, and the printed count is the number of sites |
| `OverlayCode.ScanBackwards` | tools/compile_overlays_fixed.py:475-520 | the scan loop with its early exits recognizes what the word-by-word recursion recognizes |
| `OverlayCode.FindJumpTableTargets` | tools/compile_overlays_fixed.py:463-535 | the targets are the table words that are addresses of this function, and none when base or count was not recognized |
| `OverlayCode.TargetsComeFromASwitch` | tools/compile_overlays_fixed.py:475-535 | every target is an entry of a table whose address and bound the function itself computes before the `jr`: load, addition, upper immediate and bound check are there, in order, and the load is the nearest one into the jump register |
| `OverlayCode.PlainSwitchIsFound` | tools/compile_overlays_fixed.py:475-535 | every switch in the compiler's order, with any neutral instructions in between and either summand carrying the address, is found and its whole table read |
| `OverlayCode.BranchUndoesAssembly` | tools/compile_overlays_fixed.py:439-460 | a branch leads as many words on as it was assembled with, backwards included |
| `OverlayCode.JumpUndoesAssembly` | tools/compile_overlays_fixed.py:435-460 | `j` and `jal` assembled for any aligned address of the segment are classified with that address |
| `OverlayCode.RegisterJumpUndoesAssembly` | tools/compile_overlays_fixed.py:446-453 | a register jump is classified with its register, through `ra` as a return |
| `OverlayCode.RegisterCallUndoesAssembly` | tools/compile_overlays_fixed.py:446-453 | a register call is classified as a call, whatever register links it |
| `OverlayCode.ControlFlowIsNotNormal` | tools/compile_overlays_fixed.py:395-401 | the separate list of control-flow instructions and the classification agree on every word |
| `FunctionWalk.WalkOverlayFunction` | tools/compile_overlays_fixed.py:557-634 | the worklist loop terminates, for cyclic code too, and computes the walk the theorems are about |
| `FunctionWalk.WalkIsExact` | tools/compile_overlays_fixed.py:571-627 | everything decoded is readable and reached from the entry by successor edges alone; every readable successor of it is visited; visited is exactly decoded plus the delay slots of that; the recorded targets are exactly the decoded instructions' |
| `FunctionWalk.PlainIsReachable` | tools/compile_overlays_fixed.py:571-627 | the reference traversal, which knows no delay slots, lists an address if and only if it is readable and some path of successor edges leads to it |
| `FunctionWalk.DecodesAllReachedIffNoneShadowed` | tools/compile_overlays_fixed.py:571-627 | the walk decodes exactly what is reached and readable if and only if the reference traversal meets no instruction after the one whose delay slot it is |
| `FunctionWalk.SeparateSlotsAreHarmless` | tools/compile_overlays_fixed.py:594-599 | in particular when no reached instruction is the delay slot of a reached one |
| `FunctionWalk.MarkedSlotCanHideCode` | tools/compile_overlays_fixed.py:594-599 | a jump into its own delay slot leaves reachable code unvisited |
| `FunctionWalk.LowerCapCallsLess` | tools/compile_overlays_fixed.py:562-608 | a walk with a lower cap calls nothing new if the walk with the higher one decoded everything it reached |
| `FunctionWalk.CallsAreCallable` | tools/compile_overlays_fixed.py:600-608 | every direct call target reported has boundary evidence in this image |
| `FunctionWalk.WalkStaysInside` | tools/compile_overlays_fixed.py:562-574 | visited addresses are aligned, in the image, at or after the entry and below the cap |
| `FunctionWalk.CappedWalksAreDisjoint` | tools/compile_overlays_fixed.py:562-574 | a walk capped at another's entry shares no address with it |
| `SeedClassification.CapOf` | tools/compile_overlays_fixed.py:772-773 | a cap is the nearest root above, or the end of the region |
| `SeedClassification.CapShrinks` | tools/compile_overlays_fixed.py:772-782 | more roots never move a cap up |
| `SeedClassification.RootWalksAreDisjoint` | tools/compile_overlays_fixed.py:814-819 | the walks of any two different roots, each capped by the next, are disjoint |
| `SeedClassification.IncludeKeepsJustified` | tools/compile_overlays_fixed.py:709-740 | whatever is included keeps a reason its address was offered for, jump-table labels staying out unless callable |
| `SeedClassification.Classifier.IncludeCaptured` | tools/compile_overlays_fixed.py:742-761 | after the four lists, every address has exactly the reason the capture gives it, upgrades included, whatever order the lists are read in; the roots among them start as the pending queue |
| `SeedClassification.Classifier.AddCallTarget` | tools/compile_overlays_fixed.py:777-782 | an unknown callable target becomes a root and is queued; `include` never refuses it |
| `SeedClassification.Classifier.AddCallTargets` | tools/compile_overlays_fixed.py:777-782 | exactly the unknown targets become roots and are included as call targets, they join the queue in ascending order, and no other entry changes |
| `SeedClassification.Classifier.ProcessRoot` | tools/compile_overlays_fixed.py:768-782 | one root is walked, with the cap that the roots known at that moment give it; its unknown callees, and nothing else, become roots and wait in order |
| `SeedClassification.Classifier.ProcessPending` | tools/compile_overlays_fixed.py:767-782 | the queue drains, by turns that are those of the model, each the only one possible |
| `SeedClassification.Classifier.PromoteOrphan` | tools/compile_overlays_fixed.py:806-809 | the least orphan becomes a root and waits, no other reason changes, and that is the turn of the model |
| `SeedClassification.Classifier.FindOrphan` | tools/compile_overlays_fixed.py:791-801 | the least orphan is found, and none if and only if every remaining interior is in some rooted walk |
| `SeedClassification.Classifier.Settle` | tools/compile_overlays_fixed.py:766-809 | the loops end where no turn is left: the queue is empty and, in a kernel window, every remaining interior is covered |
| `SeedClassification.ClassifyOverlaySeeds` | tools/compile_overlays_fixed.py:659-830 | the result is settled: a sequence of turns leads to it, from the captured roots to where none is left, each walking the first waiting root at the cap that held then or promoting the least uncovered interior; reasons follow from the turns, and every other candidate is excluded for the stated reason |
| `SeedClassification.SettledIsUnique` | tools/compile_overlays_fixed.py:659-830 | no other result is settled: jump-table labels, included addresses, reasons and exclusions of candidates are determined by the capture |
| `SeedClassification.RootsAreWalkedOnce` | tools/compile_overlays_fixed.py:767-782 | every root is walked at exactly one turn, and all that this walk calls, at the cap of that turn, are roots |
| `SeedClassification.RootsAreCapturedCalledOrPromoted` | tools/compile_overlays_fixed.py:742-809 | an address is a root if and only if the capture makes it one, some turn's walk called it, or some turn promoted it as the least interior that no root covered; which of these decides its reason |
| `SeedClassification.FinalCalleesAreRoots` | tools/compile_overlays_fixed.py:767-782 | what a root's final function calls are roots, if its cap did not shrink after it was walked or that walk decoded everything it reached |
| `SeedGaps.FinalFunctionCanCallNonRoot` | tools/compile_overlays_fixed.py:767-782 | a capture, worked out to its only result, in which a final function calls a callable address that is no root |
| `SeedClassification.IncludedIsDeservedOrCalled` | tools/compile_overlays_fixed.py:709-809 | every address the capture earns a place for is included, and nothing else is but callable ends of chains of calls, each seen by the walk of some turn, that start at an address with a place of its own: no function vouches for itself |
| `SeedClassification.InteriorsHaveOneHost` | tools/compile_overlays_fixed.py:784-819 | in a kernel window each interior lies in the walk of exactly one root |
| `HexText.ParsePadded` | tools/compile_overlays_fixed.py:1116-1120 | every number printed in hexadecimal at any width reads back as itself |
| `HexText.FieldsOfJoin` | tools/compile_overlays_fixed.py:1622 | splitting at whitespace undoes joining fields with spaces |
| `HexText.LinesOfUnlines` | tools/compile_overlays_fixed.py:1121 | reading lines undoes writing them |
| `Manifest.OverlayRangesText` | tools/compile_overlays_fixed.py:1100-1121 | the text is the records of header, functions and ranges in order, the variant in upper case; a variant that is no digest is refused |
| `Manifest.CoverageRoundTrip` | tools/compile_overlays_fixed.py:1116-1117 | reading coverage from a written manifest gives exactly the (entry, code checksum) pairs it was written from |
| `Manifest.LoadRegionCoverage` | tools/compile_overlays_fixed.py:1599-1630 | the loops over files and lines collect exactly what some file of the region lists |
| `Manifest.MatchOfText` | tools/compile_overlays_fixed.py:1673-1679 | a written manifest matches a query if and only if load address, size (when asked) and checksum agree |
| `Manifest.EntriesRoundTrip` | tools/compile_overlays_fixed.py:1670-1684 | a query gets all entries of a manifest it matches, and none of one it does not |
| `Manifest.LoadRegionEntrySet` | tools/compile_overlays_fixed.py:1644-1691 | the entries of exactly the files of the region that match, malformed files contributing nothing |
| `Manifest.NameBelongsToItsRegion` | tools/compile_overlays_fixed.py:1607-1618 | a published name is read for its own region and for no other |
| `Publication.StepKeepsInv` | tools/compile_overlays_fixed.py:1158-1181 | every operation of every publisher, failures and stops included, keeps the pairing of names, manifests and phases |
| `Publication.RunKeepsNames` | tools/compile_overlays_fixed.py:1171-1180 | over any stretch of any interleaving no visible name disappears, changes hands or changes what it shows |
| `Publication.PairsAreCompleteAndImmutable` | tools/compile_overlays_fixed.py:1151-1181 | a visible DLL always has a visible, complete manifest by the same publisher, from then on for good, colliding names included |
| `Publication.SuccessIsTrue` | tools/compile_overlays_fixed.py:1159-1181 | a publisher that reports success, its own or an existing pair, sees its own manifest beside a DLL |
| `Publication.SuccessLeavesNothingStaged` | tools/compile_overlays_fixed.py:1161-1180 | at every step of every interleaving, a publisher that reported success has removed its staged manifest and DLL |
| `Publication.StagedDllStaysIffConflict` | tools/compile_overlays_fixed.py:1151-1180 | in every interleaving, at every step, a publisher without an I/O error of its own has removed its staged DLL if and only if it has ended otherwise than in a conflict |
| `Publication.StagedDllStaysIffOtherPair` | tools/compile_overlays_fixed.py:1158-1163 | in every interleaving, a publisher that ended without an I/O error left its staged DLL if and only if the cache it came to compare with did not show its manifest beside a DLL |
| `Publication.ConflictLeavesStagedDll` | tools/compile_overlays_fixed.py:1158-1163 | a run in which that happens, for every job and every other publisher of its stem |
| `Publication.AloneDropsStagedDllIff` | tools/compile_overlays_fixed.py:1158-1180 | left alone, a publisher removes its staged DLL if and only if the stem is free or already shows its manifest beside a DLL |
| `Publication.SecondLinkIsFree` | tools/compile_overlays_fixed.py:1176-1177 | after a publisher's manifest link no one else can take the DLL name |
| `Publication.SecondLinkDecides` | tools/compile_overlays_fixed.py:1176-1180 | whatever happens at the second link, the DLL becomes visible or the stem is orphaned; visible exactly when the link is made from a file that still exists |
| `Publication.StopLeavesOrphan` | tools/compile_overlays_fixed.py:1166-1177 | every job has a run from the empty cache that ends with its stem orphaned |
| `Publication.OrphanBlocksForever` | tools/compile_overlays_fixed.py:1158-1163 | once orphaned, a stem never gets a DLL and keeps showing the orphan's manifest |
| `Publication.AloneOutcome` | tools/compile_overlays_fixed.py:1158-1181 | a publisher left alone publishes on a free stem, accepts its own manifest beside a DLL, and reports a conflict in every other case |
| `CaptureWorkers.LoadIsSoundIff` | tools/compile_overlays_fixed.py:1599-1630 | loaded coverage is in published pairs if and only if lone manifests list nothing that is not |
| `CaptureWorkers.PublicationNamesMatch` | tools/compile_overlays_fixed.py:1132-1135 | the publication names belong to their capture's region and no other |
| `CaptureWorkers.WantedIsWhatWasFound` | tools/compile_overlays_fixed.py:2666-2669 | what a worker compares with coverage is what its manifest will say |
| `CaptureWorkers.SessionKeepsInv` | tools/compile_overlays_fixed.py:2796-2838 | every move of every worker, failing and stopped publications included, keeps coverage published, although checking, building and updating are not one step |
| `CaptureWorkers.CoverageIsPublished` | tools/compile_overlays_fixed.py:2671-2715 | at every step of every session, whatever fails or stops, all coverage is in published pairs, and so is all that a skipped or successfully published capture wanted, if lone manifests of the regions to be captured list nothing that is not published |
| `CaptureWorkers.SessionsAreSoundIff` | tools/compile_overlays_fixed.py:2671-2715 | that condition on the cache is exact: without it some session reaches coverage that is in no pair |
| `CaptureWorkers.StoppedPublicationIsCountedAsCoverage` | tools/compile_overlays_fixed.py:2671-2690 | after any publication that stopped between its links, a capture of the region that wants no more than it is skipped, and none of what it wants is in a pair |
| `CaptureWorkers.SessionsCanLoseFunctions` | tools/compile_overlays_fixed.py:2671-2690 | there is such a session, after a run from the empty cache |
| `CaptureWorkers.IdenticalCapturesTakeTurns` | tools/compile_overlays_fixed.py:2826-2838 | in every session, captures of one region and checksum never check, build or publish at once |
| `CaptureWorkers.ActiveCanMoveIff` | tools/compile_overlays_fixed.py:2671-2715 | a worker that has started and not finished can go on without failing if and only if it was not stopped in its publication |
| `CaptureWorkers.NoDeadlock` | tools/compile_overlays_fixed.py:2819-2838 | at every step of every session without stops, a worker that has not finished can go on, or waits for a worker of its own key that can |
| `OverlayVariants.KeysDecideTheOrder` | tools/finalize_static_overlays.py:212-225 | the ten sort fields order variants with different keys totally, whatever else they carry |
| `OverlayVariants.NormalizedVariants` | tools/finalize_static_overlays.py:132-226 | the loop with `seen` and the sort compute the normal form, or refuse |
| `OverlayVariants.NormalizedIsInside` | tools/finalize_static_overlays.py:146-174 | whatever the inputs, entry and code of every normalized variant are bytes of its artifact, which lies in RAM |
| `OverlayVariants.NormalizedIgnoresOrder` | tools/finalize_static_overlays.py:188-226 | for all inputs with one image identity for equal keys, reordering and duplicating changes neither the result nor the refusal |
| `OverlayVariants.OrderIndependentIffOneImage` | tools/finalize_static_overlays.py:188-226 | for all inputs: the outcome is the same in every order if and only if some input lacks authority, or every input of some key lacks an image identity, or equal keys carry equal image identities |
| `OverlayVariants.OrderCanMatter` | tools/finalize_static_overlays.py:188-211 | two acceptable inputs with different images whose order decides the result |
| `Dispatcher.Decide` | tools/finalize_static_overlays.py:366-427 | the answer is right: run only the single match that is accepted, report ambiguity, refusal and absence as such |
| `Dispatcher.RightAnswerIsUnique` | tools/finalize_static_overlays.py:366-427 | only one answer is right for any memory, address and callback |
| `Dispatcher.ProbeCoversDispatch` | tools/finalize_static_overlays.py:394-394 | the probe says yes if and only if dispatch would run something or be refused by the callback |
| `Dispatcher.RunsOnlyTheIdentified` | tools/finalize_static_overlays.py:359-427 | for every accepted input, a variant runs if and only if its code (and, for shared code, its image) is in memory, the callback accepts it, and no other variant of the address is identified |
| `Dispatcher.SomeCallRunsIff` | tools/finalize_static_overlays.py:359-427 | some call in some memory runs a variant if and only if its address is in the cached segment, what it needs in memory is consistent, and no other variant of the address needs only part of that |
| `Dispatcher.UnreachableEntry` | tools/finalize_static_overlays.py:188-226 | an accepted input none of whose variants any call runs |
| `Dispatcher.TwinsNeverRun` | tools/finalize_static_overlays.py:364-393 | two variants of an address with the same code and image: neither ever runs |
| `Dispatcher.AmbiguousIffCanClash` | tools/finalize_static_overlays.py:364-393 | an address can be ambiguous, in some memory, if and only if two of its variants need no range list with two digests |
| `Dispatcher.NoClashNoAmbiguity` | tools/finalize_static_overlays.py:364-393 | with memory as bytes compared by digest, an address without such a pair is never ambiguous |
| `Dispatcher.RunsStayInside` | tools/finalize_static_overlays.py:146-174 | what a dispatch runs is code of its own artifact at the dispatched address |
| `Dispatcher.DifferentCodeIsNeverAmbiguous` | tools/finalize_static_overlays.py:366-393 | with memory as bytes compared by digest, variants that share their ranges and differ in code are never reported ambiguous |
| `Dispatcher.ChunksPartition` | tools/finalize_static_overlays.py:446-451 | the groups are non-empty and concatenate to the sorted addresses |
| `Dispatcher.ChunksAreFew` | tools/finalize_static_overlays.py:446-451 | there are at most as many groups as the rounded-up chunk size was computed for |
| `Dispatcher.RoutedHoldsKey` | tools/finalize_static_overlays.py:688-693 | the chain of comparisons reaches the only group that can hold the key, and none exactly when no group can |
| `Dispatcher.OverlayDispatcher.Select` | tools/finalize_static_overlays.py:364-393 | the selection loop finds the one match or stops at the second, and counts each test and miss |
| `Dispatcher.OverlayDispatcher.DispatchAt` | tools/finalize_static_overlays.py:361-427 | one address's case gives the right answer and the counters that answer implies, and the CPU stands at the variant's resume point exactly when a variant with one runs |
| `Dispatcher.OverlayDispatcher.Dispatch` | tools/finalize_static_overlays.py:683-697 | sharded dispatch answers, counts and sets the pc as the unsharded program does, for every address |
| `Dispatcher.OverlayDispatcher.CanDispatch` | tools/finalize_static_overlays.py:699-701 | true whenever dispatch would run something, false unless exactly one variant matches; the counters are those of a call without a CPU, no hit is counted, and they stay as they were if and only if the gate refuses |
| `Dispatcher.ProbeCountsUnlessGated` | tools/finalize_static_overlays.py:364-394 | for a program without empty entries, a probe leaves the counters as they were if and only if the gate refuses it |
| `Dispatcher.GeneratedEntriesAreNotEmpty` | tools/finalize_static_overlays.py:443-458 | no generated program has an empty entry |
| `Dispatcher.ProbeCanCount` | tools/finalize_static_overlays.py:380-394 | a probe of a generated entry that counts a check |
| `Dispatcher.GenerateDispatchShards` | tools/finalize_static_overlays.py:439-508 | of what is modelled, refuses exactly empty input, inputs or image records without authority, no slots, or shared code without an image identity; otherwise emits a program and a partition of its addresses |
| `Dispatcher.RunsConserve` | tools/finalize_static_overlays.py:380-431 | over any run per-entry hits sum to the hits, which are the calls that ran; checks are misses plus calls with a match; address misses are calls without an entry |
| `CodeIdentity.Fingerprint` | tools/generate_native_mod_symbols.py:32-43 | accepted exactly for 1 to 4096 ordered, aligned, disjoint ranges inside the image; the digest is of their bytes in order |
| `CodeIdentity.EqualBytesIffSameCode` | tools/generate_native_mod_symbols.py:39-42 | concatenating the ranges loses nothing: equal concatenations mean equal bytes in every range, each memory read from its own base |
| `CodeIdentity.DigestMatchesIffCodeIsThere` | tools/generate_native_mod_symbols.py:127-131 | for an injective digest and every memory the image fits into, a match means exactly that every range holds the image's bytes |
| `NativeSymbols.AvailableMeans` | tools/generate_native_mod_symbols.py:127-131 | following scope references, which go only to earlier guards, a guard evaluates to its code and its scope being live |
| `NativeSymbols.MemoGrows` | tools/generate_native_mod_symbols.py:103-118 | adding a guard keeps names distinct and every memoised name meaning its key |
| `NativeSymbols.GuardCompiler.GuardFor` | tools/generate_native_mod_symbols.py:103-118 | the memoised recursion returns a guard for the requested pair and leaves all earlier lines as they were |
| `NativeSymbols.CollectOwners` | tools/generate_native_mod_symbols.py:64-93 | the owners of code at an address are exactly the images with such a variant or symbol |
| `NativeSymbols.ManyOwnersIffShared` | tools/generate_native_mod_symbols.py:123-124 | more than one owner means exactly that another image has the same code there |
| `NativeSymbols.Generate` | tools/generate_native_mod_symbols.py:119-125 | every symbol gets a guard for its code and the right scope; no two guards are for the same pair |
| `NativeSymbols.GuardsMeanWhatTheyName` | tools/generate_native_mod_symbols.py:119-131 | for every memory, a symbol is available if and only if its code is live and, when shared, its image; an unscoped overlay guard has no other owner |
| `NativeSymbols.AvailableIffBytesAreThere` | tools/generate_native_mod_symbols.py:119-131 | on bytes: a symbol is available if and only if memory holds the fingerprinted data in the function's ranges and, when the code is shared, in its image's |
| `BodySplit.EndIsLongest` | tools/finalize_static_overlays.py:108-115 | a bucket ends no earlier than any bucket that starts with it and fits |
| `BodySplit.GreedyIsSplit` | tools/finalize_static_overlays.py:105-117 | the buckets concatenate to the functions and each fits or is a single function |
| `BodySplit.GreedyStaysAhead` | tools/finalize_static_overlays.py:105-117 | from any later point the packer needs no more buckets than any other split from an earlier one |
| `BodySplit.GreedyIsOptimal` | tools/finalize_static_overlays.py:105-117 | no order-preserving split within the budget has fewer buckets |
| `BodySplit.Pack` | tools/finalize_static_overlays.py:105-117 | the loop with its running line count is the greedy split |
| `BodySplit.SplitOverlayBody` | tools/finalize_static_overlays.py:83-129 | the shard error is raised exactly when every split needs more shards than there are, and names the fewest possible |
| `BaseVotes.ProloguesAreExact` | tools/census_disc_overlays.py:189-195 | an aligned offset is listed if and only if its word opens a stack frame |
| `BaseVotes.BisectLeft` | tools/census_disc_overlays.py:219-219 | everything before the position is smaller and nothing after it is |
| `BaseVotes.SliceIsAperture` | tools/census_disc_overlays.py:218-222 | the slice between the two searches holds exactly the prologues whose base lies in the aperture |
| `BaseVotes.CastVotes` | tools/census_disc_overlays.py:218-224 | one target adds one vote to each aligned base it would meet a prologue at, and to no other |
| `BaseVotes.RawBaseVotes` | tools/census_disc_overlays.py:207-225 | the count of every base is the brute-force number of (target, prologue) pairs, and zero where the image does not fit |
| `BaseVotes.MostCommon2` | tools/census_disc_overlays.py:240-242 | the top is a maximum and the runner-up the maximum of the rest, whatever the order of ties |
| `BaseVotes.AnalyzeMips` | tools/census_disc_overlays.py:228-267 | in an image with a return, a base is recovered if and only if it alone has at least 8 votes, twice those of every other and a quarter of the prologues, independent of tie order |
| `Extents.AdjacentIsPairwise` | tools/native_render_static_census.py:357-360 | in offset order, comparing neighbours is comparing all pairs |
| `Extents.SortKeepsDisjointness` | tools/native_render_static_census.py:638-645 | sorting neither hides nor creates an overlap and keeps the extents |
| `Extents.CheckOverlaps` | tools/native_render_static_census.py:357-360 | the check passes if and only if all extents are pairwise disjoint |
| `CensusScan.FindIdiom` | tools/native_render_static_census.py:931-983 | the nested loops find the earliest link and insert of an ordering-table insertion, and nothing only if there is none |
| `CensusScan.ScanNamed` | tools/native_render_static_census.py:815-919 | the loop lists the words of a named kind in order |
| `CensusScan.NamedIsExact` | tools/native_render_static_census.py:987-1066 | a fact is listed if and only if its word is of that kind |
| `CensusScan.InlineIsExact` | tools/native_render_static_census.py:922-984 | an inline site is listed if and only if an insertion starts at its word |
| `CensusScan.CensusSeesWhatTheWalkFollows` | tools/native_render_static_census.py:1019-1054 | kind by kind and for every word, what census and walk make of jumps, calls, register transfers and branches, the two exceptions included |
| `CensusScan.CensusAndWalkAgreeIff` | tools/native_render_static_census.py:1019-1054 | both tools take a word for a branch or neither does, if and only if it is no coprocessor branch and no `regimm` word outside the eight branches |
| `CensusScan.CensusAndWalkCanDisagree` | tools/native_render_static_census.py:1037-1050 | one word of each exception |
| `CensusScan.FactsAcrossAreUnique` | tools/native_render_static_census.py:1069-1081 | disjoint extents never give a fact twice, the two scanners together included |
| `CensusScan.FactIdIsInjective` | tools/native_render_static_census.py:215-220 | identifiers differ whenever digest, offset or kind do |
| `CensusLedger.ScannedIsUnique` | tools/native_render_static_census.py:1258-1269 | no site and no branch is found twice over all artifacts |
| `CensusLedger.IdsAreUnique` | tools/native_render_static_census.py:215-220 | site and branch identifiers are globally unique |
| `CensusLedger.CheckReviews` | tools/native_render_static_census.py:1097-1104 | duplicates, stale records, missing records and errors are detected, each exactly |
| `CensusLedger.ChecksMeanClosed` | tools/native_render_static_census.py:1285-1297 | the separate checks together are closure: one record for every fact, none stale, none an error |
| `CensusLedger.ClosureIsABijection` | tools/native_render_static_census.py:1293-1314 | with closure there are as many records as facts and each belongs to exactly one of the other |
| `CensusLedger.FactsLieInCode` | tools/native_render_static_census.py:500-516 | every site and branch counted lies in a reviewed executable range of its own artifact |
| `CensusLedger.CheckReview` | tools/native_render_static_census.py:608-645 | of what is modelled, accepted exactly: distinct artifacts with aligned, disjoint ranges and functions, the entry and every function in the code, tokens given once, one main executable |
| `CensusLedger.BuildDocument` | tools/native_render_static_census.py:1246-1314 | of what is modelled, a document is refused exactly for a bad review, a repeated or foreign record, or missing completeness; closure is claimed exactly when required and real |
| `Detector.MissingPatchDetector.DropExpired` | tools/glitch_capture.py:203-206 | the queue loses its expired front and stops at the first live event |
| `Detector.OverlapIsAFraction` | tools/glitch_capture.py:173-190 | for non-empty boxes: symmetric, between 0 and 1, 0 exactly without a common pixel, 1 exactly for the same box |
| `Detector.MissingPatchDetector.Score` | tools/glitch_capture.py:249-266 | one frame's decision, the new queue and the run of deviating frames |
| `Detector.DropIsTrailing` | tools/glitch_capture.py:203-206 | on a sorted history, dropping from the front leaves exactly the events of the window |
| `Detector.RunKeepsWindow` | tools/glitch_capture.py:249-266 | after any run in order, the queue is the history behind expired events |
| `Detector.QueueDecidesLikeHistory` | tools/glitch_capture.py:250-263 | a frame is flagged as if the whole history were searched for its region |
| `Detector.InOrderNeverReturns` | tools/glitch_capture.py:203-206 | timestamps that never step back satisfy the condition of the limit |
| `Detector.RunKeepsSuffix` | tools/glitch_capture.py:203-266 | whatever the clock does, the queue is a suffix of the history and what it lost was left behind by a later shot |
| `Detector.BlinkersAreLimited` | tools/glitch_capture.py:246-266 | over any run whose clock does not return, no window holds more than `blink_k` + 1 flagged events that pairwise overlap |
| `Detector.SameBoxIsLimited` | tools/glitch_capture.py:246-266 | in particular for one non-empty box, for every threshold up to 1 |
| `Detector.LimitedIffNoReturn` | tools/glitch_capture.py:203-266 | for every sequence of timestamps, window and reading of "within one window": no run with these timestamps, whatever its frames and other settings, exceeds the limit, if and only if the timestamps do not return |
| `Detector.BackwardsClockBreaksTheLimit` | tools/glitch_capture.py:203-206 | a clock that steps back after a late shot lets a run exceed the limit, and one with a smaller step does not |

## Left out

- The recompiler, the native compiler and the rewriting of generated C text: the list of ranges and functions they
  yield is an arbitrary input. `parse_overlay_func_ids` and `merge_code_ranges` are not part of this model.
- The body pattern of `split_overlay_body`: the functions found in the source text are the input, and the shard text
  around them is not modelled.
- The `psxrecomp` submodule is not part of this model: `overlay_pair_id` is a number in the header, the note-candidate
  callback an arbitrary predicate, and the union pre-filter of the static image test is absent.
- The image lookup tables and the union of ranges that `generate_dispatch_shards` emits from its records.
- `Dispatcher.RunsConserve`: counters are unbounded, the 64-bit wrap-around is not modelled.
- `CutoverTable.CutoverRelevant`: requires a table shorter than 2^32 rows, because longer ones do not fit the emitted
  index type; `CutoverTable.EmitColdCutoverTable` gives that for up to 2^30 sites.
- `LzssWindow.Decompress`: the two tools have textually separate decoders; they share one decoder class here.
- `Manifest.LoadRegionCoverage`: digits and white space outside ASCII, and files that are unreadable or no UTF-8, are
  outside the model.
- `Manifest.LoadRegionEntrySet`: the same.
- `CaptureWorkers.CoverageIsPublished`: one process: locks do not reach other processes. The legacy merge of older
  ranges and the interior fragments are absent, and staged DLL names are taken as unique.
- `SeedClassification.ClassifyOverlaySeeds`: address-list and TOML parsing are inputs.
- `FunctionWalk.WalkOverlayFunction`: the iteration order of a jump table's set is an arbitrary fixed enumeration.
- `NativeSymbols.Generate`: the choice among several variants of one symbol and the symbol alias table are inputs.
- `CensusLedger.CheckReview`: the syntax of tokens and digests, discs, serials, roles and references are not checked.
- `CensusLedger.BuildDocument`: site details, render targets and their bindings, evidence, families, coverage counts and
  the header checks of images are absent, refusals included; facts are listed in scan order, not sorted by identifier.
- `Detector.MissingPatchDetector.Score`: the baseline, the mask, its bounding box and the localized flag are inputs, as
  they are image arithmetic; overlap ratios are exact rationals, not floating point.
- `merge_source_plans`, `map_physical_routes`, FAT tables, sector reading and PSX-EXE headers.
- Certification, replay and baseline validators: long field-by-field checks.
- Scratch-directory recovery, the job pool's file locks, debug clients, screenshots and training runs.
