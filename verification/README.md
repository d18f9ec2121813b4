# Network monitor and core library: a Dafny model

A Dafny model of the parts of this repository that compute something hard: the switch loop check of the Omada
monitor, the lock file, table parser, score and known-device bookkeeping of the two monitors, the generic vector and
the message serialization of the C headers, and the sort-order repair of the graph page. `dafny verify dfyconfig.toml`
checks all of it.

**Loop check** (`Collections`, `Graphs`, `Ports`, `PortNames`, `Lldp`, `Cabling`, `SwitchLinks`, `PortGraph`,
`DfsForest`, `CycleSearch`, `Coverage`, `Counting`, `CycleBounds`, `LoopDetection`). LLDP rows become links between
ports of different switches. The links, together with all pairs of ports of one switch, form a graph of ports, and a
recursive depth-first search reports cycles that leave a switch. Sets and dictionaries are taken in arbitrary order
(`:|`), so everything proved holds for every order. A link is *redundant* when its two switches stay connected
without it. The links on reported cycles are exactly the redundant links; hence the alarm is raised exactly when
there is a self loop or when the links outnumber the switches minus the connected components, and at least that
surplus of cycles is reported. What a row says is stated on its fields (`Lldp.Says`); when the rows describe a
cabling, each cable from one end or both, the links found are the cables, once each, and the alarm is raised exactly
when the cabling has a loop (`Cabling`). `CycleSearch.CycleFinder` keeps, beside the program's own variables, the
tree path of every visited port and the back edges met; what a finished search guarantees (`DfsForest.Searched`) is
a statement about values, and `Coverage`, `Counting` and `CycleBounds` reason from it alone.

**Vector** (`SortedSeqs`, `Vector`). The growable array of `zbxalgo.h` as a class over an array that is reallocated.
Each operation refines a function of the sequence held; `SortedSeqs` proves what those functions mean for any
comparison function that is a total preorder.

**Messages** (`Serialize`). The prepare, write and read macros, with 32-bit truncation written out.

**Lock file** (`LockProtocol`). Interleaved steps of any number of processes on one lock file, with time, kills, stale
breaking and unconditional cleanup. Mutual exclusion is not unconditional: it is lost when a process reads the age of
one lock and removes the next. With holders that finish within `h` and processes that take at most `d` between reading
the file's time and the clock, every run is exclusive if and only if nobody is killed while holding and `h + d` is at
most 35 seconds: one killed holder is enough to lose exclusion, however prompt everyone is, although a lock left behind
is what stale breaking is for. The same theorem says what an atomic check would give: exclusion, kills or not, if and
only if `h` is at most 35 seconds (`ExclusionExactly`). Beside safety, the module states who gets the lock: a refresher
takes it within three of its own steps once it is free, and gives up only after 28 failed creates (`FreeLockIsTaken`,
`LeavesAfterAllAttempts`).

**Known access points** (`KnownAps`), **score** (`LocalAnalysis`), **tables** (`Strings`, `CliTable`, `CliLayout`) and
**sort order** (`SortOrder`) model the remaining pieces. Findings stated as lemmas, each with an input that shows it:

- Of two access points that share a name in the controller's summary, the earlier one is reported offline although it
  runs (`SharedNameReportedOffline`, `FirstOfTwoReportedOffline`).
- Once all channel suggestions are followed, no two access points share a 5 GHz channel if and only if none did before,
  or a listed channel is free and only one access point in the whole list is told to move (`OverlapsGoneExactly`). The
  source's comment speaks of shifting one access point, its code moves all but the first of each channel, and all to
  one and the same channel: with three on channel 36 the two that move meet again on 44 (`MoversMeetAgain`), and with
  every listed channel in use they join channel 36 (`FullListKeepsOverlap`).
- The sort-order loop only acts on equal neighbours, and the page reads items by `gitemid`, so orders may come unsorted.
  For every input the loop is a left-to-right recurrence with a pass counter; the result is strictly increasing if and
  only if no order has to be raised by more than one step beyond the furthest an earlier one has to be
  (`IncreasingExactly`). Otherwise orders may stay repeated (`RepetitionExactly`, `UnsortedKeepsRepetition`).

Given, not modelled: case mapping, `int()` and `isdigit()` on text, which characters are white space and which digits,
and in `KnownAps` stripping are function parameters. Python integers, lists, sets and dictionaries are Dafny's; a
sorted tuple of ports used as a cycle's identity is the multiset of its ports. Byte order in memory is little endian.

## Model

| member | source | states |
|---|---|---|
| LoopDetection.DetectLoops | omada_monitor.py:820-951 | for every order: links and self loops are those the rows' fields tell; if the rows describe a cabling, links are as many as cables and the alarm count is positive exactly when the cabling has a loop; in general it is positive exactly when a row tells a self loop or links exceed switches minus components; the cycles are those of one complete depth-first search, exist exactly when some link is redundant, lie on exactly the redundant links, leave a switch, have their own port sets, and number at least links minus switches plus components and at most edges minus ports plus components |
| LoopDetection.CyclesRevealLoops | omada_monitor.py:862-935 | a link is redundant between switches if and only if some reported cycle passes through it |
| LoopDetection.AlarmExactly | omada_monitor.py:901-935 | some cycle is reported if and only if some link is redundant |
| LoopDetection.OnePortGraph | omada_monitor.py:876-899 | the links determine the port graph, whatever order it is built in |
| Lldp.CollectLinks | omada_monitor.py:835-867 | the two sets hold exactly the links and self loops that some row's fields tell, smaller end first |
| Lldp.ReadAsNamed | omada_monitor.py:838-852 | the neighbour is the first given of three fields, the ports the first given of two or, when that is empty, the first of the fallback fields |
| Lldp.ClassifiedAsTold | omada_monitor.py:838-867 | a row contributes the link or self loop between its own switch's port and the neighbour's port, and nothing without a neighbour |
| Lldp.PlainRowSays | omada_monitor.py:838-867 | a row with neighborMac, localPort and remotePort says just the pair of (own switch, local port) and (neighbour, remote port), upper-cased and normalised |
| Lldp.SameLinkFromBothEnds | omada_monitor.py:838-867 | one cable reported from both ends, each row's local port the other's remote port, is one link or one self loop |
| Cabling.LinksAreCables | omada_monitor.py:835-867 | when every row tells of a cable and every cable is told of, the links are the cables, as many of them, and there are no self loops |
| Cabling.SameLoops | omada_monitor.py:862-867 | whether there is a loop does not depend on which end of a link comes first |
| Cabling.OneCableDescribed | omada_monitor.py:835-951 | two switches that report one cable from both ends describe just that cable, which is no loop |
| PortNames.NormalizedExactly | omada_monitor.py:124-134 | the name of a port is what follows its last slash, else the number at its end, else all of it, without white space at the ends |
| PortNames.SamePort | omada_monitor.py:124-134 | a number, words before it, and a path before it name one port |
| Lldp.FoundLinksAreSorted | omada_monitor.py:856-867 | collected links join different switches and none is another one reversed |
| Ports.StringOrder | omada_monitor.py:858-866 | the comparison of strings is total and antisymmetric |
| Ports.StringLeExactly | omada_monitor.py:858-866 | strings compare lexicographically, a proper prefix first |
| Ports.StringLeTransitive | omada_monitor.py:858-866 | and transitive |
| Ports.PortOrder | omada_monitor.py:862-866 | ports, compared by switch and then by port, are totally ordered |
| Ports.SortedLinkSym | omada_monitor.py:862-866 | the sorted pair does not depend on which port is named first and has the same two ports |
| PortGraph.Builder.AddEdge | omada_monitor.py:878-882 | exactly the one undirected edge and its two nodes are added |
| PortGraph.Builder.AddLinks | omada_monitor.py:884-886 | nodes and edges are exactly the ends and pairs of the links |
| PortGraph.Builder.GroupPorts | omada_monitor.py:888-893 | each switch is mapped to all its ports, once each |
| PortGraph.Builder.BridgePorts | omada_monitor.py:896-899 | exactly all pairs from the port list become edges; no node is added |
| PortGraph.Builder.Build | omada_monitor.py:876-899 | the graph is symmetric and irreflexive, its edges exactly the links plus all pairs of different ports of one switch |
| SwitchLinks.RedundantInPortGraph | omada_monitor.py:876-899 | cliques of ports contract faithfully: a link is redundant between switches iff its ports stay connected without it |
| SwitchLinks.ContractionKeepsConnectivity | omada_monitor.py:876-899 | whichever links are dropped, two ports are connected iff their switches are |
| SwitchLinks.SameComponentCount | omada_monitor.py:876-899 | the port graph has as many components as the switch graph |
| SwitchLinks.LoopByCounting | omada_monitor.py:862-867 | a link multigraph has a redundant link iff links exceed switches minus components |
| CycleSearch.HasExternal | omada_monitor.py:917-923 | true exactly when some step of the cycle joins different switches |
| CycleSearch.IndexOf | omada_monitor.py:913-913 | the first position of a port in the path |
| CycleSearch.CycleFinder.CloseCycle | omada_monitor.py:912-928 | the length and identity tests never fail: a new back edge adds its cycle to the report exactly when the cycle leaves a switch |
| CycleSearch.CycleFinder.Visit | omada_monitor.py:909-930 | one neighbour, in any of the four cases, is handled and the invariant kept |
| CycleSearch.CycleFinder.Dfs | omada_monitor.py:906-931 | enters each port once, restores the path, keeps the invariant, and closes back edges only from newly visited ports |
| CycleSearch.CycleFinder.Run | omada_monitor.py:933-935 | every port is finished and the report lists exactly the crossing cycles of the back edges |
| CycleSearch.NoCrossEdge | omada_monitor.py:909-930 | a visited neighbour off the path is a descendant: there are no cross edges |
| CycleSearch.Meet | omada_monitor.py:912-926 | a back edge's cycle has at least three ports and a port set no reported cycle has |
| CycleSearch.Record | omada_monitor.py:924-928 | recording it keeps the report and the identities exact |
| DfsForest.FundamentalIsSimple | omada_monitor.py:912-915 | the path from an ancestor closed by a back edge is a simple cycle of at least three adjacent ports |
| DfsForest.BackEdgeFromPorts | omada_monitor.py:925-927 | two back edges with the same cycle ports are the same back edge |
| Coverage.ReportedExactly | omada_monitor.py:906-935 | an external link is on a reported cycle iff its two ports stay connected without it |
| Coverage.SimpleCycleLinkReported | omada_monitor.py:906-935 | every external link on any simple cycle of the port graph is on a reported cycle |
| Coverage.ReportedCyclesAreCycles | omada_monitor.py:912-928 | every reported cycle is a simple cycle with an external step, and no two have the same ports |
| Counting.BackEdgesCount | omada_monitor.py:906-935 | the candidates met number exactly edges minus ports plus components |
| Counting.ReportedCount | omada_monitor.py:912-935 | the cycles reported number exactly the back edges whose cycle leaves a switch |
| CycleBounds.ManyInnerEdges | omada_monitor.py:895-923 | tree edges and reported back edges inside switches join all ports of each switch, so they number at least ports minus switches |
| CycleBounds.ReportedAtLeast | omada_monitor.py:901-951 | every search reports at least links minus switches plus components cycles |
| LocalAnalysis.Analyse | omada_monitor.py:135-231 | the score equals an order-free formula and lies in 30 to 100; issues and suggestions name exactly the high-power access points, the members of shared channels and the later users of each channel, each once and in the order of the list and of first use, with the one suggested channel and the number of poor clients |
| LocalAnalysis.HighPowerExactly | omada_monitor.py:143-149 | high power is 20 or more, read from tx_power_2g or, when that is missing, zero or empty, from pwr_2g |
| LocalAnalysis.ChannelExactly | omada_monitor.py:169-174 | a counted channel is a whole number above 14 in channel_5g or, when that is empty, in ch_5g |
| LocalAnalysis.PoorClientExactly | omada_monitor.py:208-214 | a poor client has an rssi of -80 or less |
| LocalAnalysis.ScoreOfOneMore | omada_monitor.py:164-204 | one access point more costs 2 for high power while fewer than ten have it, and 8, or 6 after three, when it makes a channel shared |
| LocalAnalysis.ScoreOfOneClientMore | omada_monitor.py:206-225 | one poor client more costs 3, the seventh 2 and later ones nothing; with nothing to complain of the score is 100 |
| LocalAnalysis.SuggestedExactly | omada_monitor.py:189-191 | the suggestion is the first channel of the list that nobody uses, else 36 |
| LocalAnalysis.ScoreNeverRises | omada_monitor.py:164-225 | more access points or clients, in any order, never raise the score, which stays within 30 and 100 |
| LocalAnalysis.ScoreIgnoresOrder | omada_monitor.py:164-225 | the score does not depend on the order of access points and clients |
| LocalAnalysis.GroupByChannel | omada_monitor.py:167-174 | each channel in use is mapped to the positions of its users in order, keys come in order of first use, and all counted access points are grouped |
| LocalAnalysis.SuggestMoves | omada_monitor.py:176-201 | issues name exactly the users of shared channels, suggestions exactly all but the first user of each channel, both in order, and overlapping channels are counted |
| LocalAnalysis.FreeChannelResolves | omada_monitor.py:188-201 | with a listed channel free, each channel keeps exactly its first user and the others go where nobody was |
| LocalAnalysis.OldChannelsKeepOneUserExactly | omada_monitor.py:188-201 | each channel in use before keeps at most one user iff there was no overlap or a listed channel is free |
| LocalAnalysis.OverlapsGoneExactly | omada_monitor.py:188-201 | no two access points end on one channel, the suggested one included, iff nobody has to move, or a listed channel is free and at most one has to |
| LocalAnalysis.MoversMeetAgain | omada_monitor.py:188-201 | three access points on channel 36: two end together on channel 44 |
| LocalAnalysis.FullListKeepsOverlap | omada_monitor.py:188-201 | with all ten listed channels in use the one that moves joins channel 36 |
| LockProtocol.LeavesAfterAllAttempts | omada_monitor.py:524-548 | a refresher that is not killed and finds no fresh cache leaves without ever holding the lock only after exactly 28 failed creates, and never sees more |
| LockProtocol.FreeLockIsTaken | omada_monitor.py:506-545 | in every run, a refresher that has not held the lock and has seen fewer than 28 creates fail takes it within three of its own steps once the lock file is gone, a waiting one in two |
| LockProtocol.RefresherChecks | omada_monitor.py:509-545 | alone, a refresher leaves a lock up to 35 seconds old and waits, and removes and replaces an older one |
| LockProtocol.ReaderChecks | aruba_monitor.py:548-579 | alone, a reader leaves a lock up to 45 seconds old, removes an older one, and is done |
| LockProtocol.ReaderNeverHolds | aruba_monitor.py:548-579 | a reader never holds the lock in any run |
| LockProtocol.WrittenLockIsFresh | omada_monitor.py:509-528 | writing the process number renews the lock: a check d later removes it iff d exceeds the limit |
| LockProtocol.EndsForGood | omada_monitor.py:518-545 | a holder's cleanup removes the lock file whosever it is; one that finds a fresh cache or is killed leaves it; all of them for good |
| LockProtocol.ExclusiveUnlessLiveBreak | omada_monitor.py:506-548 | in every run without a stale break of a live holder's lock, kills included, holders exclude each other and own the lock file |
| LockProtocol.PromptRunsAreExclusive | omada_monitor.py:509-548 | when hold time and dawdling fit in 35 seconds together and no holder is killed, no stale break ever starts and exclusion holds |
| LockProtocol.DawdlingBreaksExclusion | omada_monitor.py:509-522 | when they do not fit, a run exists in which two processes hold the lock |
| LockProtocol.KillBreaksExclusion | omada_monitor.py:509-522 | with one holder killed such a run exists whatever the times are |
| LockProtocol.OverlongHoldBreaksExclusion | omada_monitor.py:509-522 | with a holder older than 35 seconds such a run exists even if checks are atomic |
| LockProtocol.AtomicRunsAreExclusive | omada_monitor.py:509-548 | if the check were atomic and no holder outlived 35 seconds, every run would be exclusive, kills included |
| LockProtocol.ExclusionExactly | aruba_monitor.py:636-678 | all runs within the bounds are exclusive iff no holder may be killed and the two times together are at most 35 seconds; with atomic checks, iff the hold time is |
| KnownAps.ReadSummary | aruba_monitor.py:751-765 | a name finds the MAC of its last row and a MAC the name of its last row, and nothing else is found |
| KnownAps.Monitor.Refresh | aruba_monitor.py:767-911 | a run reports running access points in order with their own name, MAC and serial, and every other known one once, offline, under the name and serial kept for its MAC, else its MAC in upper case and dashes; the files hold just the names and serials kept; totals add up |
| KnownAps.ReportMeans | aruba_monitor.py:751-911 | kept is the name of a MAC's last summary row, else the old one, and the serial of the last running access point with that MAC that shows one, else the old one |
| KnownAps.KnownReportedOnce | aruba_monitor.py:889-911 | a known MAC is reported online iff it is active, offline iff it is not, and offline at most once |
| KnownAps.KnownIsSeen | aruba_monitor.py:767-799 | after any history the known MACs are exactly those of the first file and those some run listed |
| KnownAps.EverySeenIsReported | aruba_monitor.py:767-911 | the latest run reports every MAC ever known, either online or offline |
| KnownAps.OfflineExactly | aruba_monitor.py:767-911 | for every input, a MAC is reported offline iff it is known and no running access point counts as it, by the last row of its name or, unlisted, by the name itself |
| KnownAps.SharedNameReportedOffline | aruba_monitor.py:751-765 | an access point listed once, whose MAC no unlisted running name spells, is reported offline iff it does not run under its name or a later row has its name |
| KnownAps.FirstOfTwoReportedOffline | aruba_monitor.py:751-765 | two access points of one name, both running: both are reported with the second MAC and the first MAC is offline |
| CliTable.ParseTable | aruba_monitor.py:198-245 | for every text: the first line that looks like a rule gives a column for each run of dashes, the line above it the headers, and the rows are those of the lines below that are not skipped and have a name or address, in order, each header with the cell of its last column |
| Strings.StripExactly | aruba_monitor.py:229-241 | stripping takes white space off both ends and all of it, and is empty iff the text is blank |
| CliTable.SeparatorExactly | aruba_monitor.py:205-205 | a rule has a space and either begins with four dashes or is not blank and has dashes and spaces only |
| CliTable.SkippedExactly | aruba_monitor.py:235-238 | skipped are blank lines, lines that begin with three dashes and lines that contain Access Points |
| CliTable.CellExactly | aruba_monitor.py:241-241 | a cell is the characters between two positions, as far as there are any, without white space at its ends, and there is only one such |
| CliTable.RowExactly | aruba_monitor.py:239-242 | the dictionary has the headers as keys, each with the cell of the last column of that header |
| CliTable.KeyExactly | aruba_monitor.py:239-243 | a line counts iff the last column headed Name, MAC Address or mac has a cell that is not empty |
| CliTable.RowsExactly | aruba_monitor.py:233-244 | the rows are those of the lines that count, in order |
| CliTable.FindColumns | aruba_monitor.py:212-226 | the scan yields a column for every run of dashes |
| CliTable.DashStartsMembers | aruba_monitor.py:213-221 | column starts are exactly the dashes that begin a run, strictly increasing |
| CliTable.ColumnsTile | aruba_monitor.py:223-226 | columns are non-empty, increase and tile the rule to its end |
| CliTable.FirstStartIsFirstDash | aruba_monitor.py:213-226 | every dash lies at or after the first start, which is a dash |
| CliLayout.LaidOutTableIsRead | aruba_monitor.py:198-245 | any table laid out under a rule is read back as those of its rows that have a cell under Name, MAC Address or mac, in order, skipped lines apart |
| CliLayout.CellRead | aruba_monitor.py:239-241 | reading a column of a laid-out line gives its cell, also where trailing spaces are missing |
| CliLayout.DictLast | aruba_monitor.py:239-242 | a row maps each header to the cell of its last column and nothing else |
| CliLayout.DictAt | aruba_monitor.py:239-242 | with distinct headers to its cell |
| Vector.AppendsAreAmortised | include/zbxalgo.h:379-399 | n appends to a fresh vector move at most 3.1 n elements |
| Vector.Vector.EnsureFreeSpace | include/zbxalgo.h:383-399 | contents unchanged, at least one free slot; capacity 32 at first, then three halves rounded down, or one more when that is larger, and only when full |
| Vector.Vector.Append | include/zbxalgo.h:438-442 | the value is added at the end |
| Vector.Vector.Insert | include/zbxalgo.h:444-456 | the value is inserted before the index, the rest moved up |
| Vector.Vector.AppendArray | include/zbxalgo.h:464-473 | the values are added at the end and capacity is exact when it grows |
| Vector.Vector.RemoveNoOrder | include/zbxalgo.h:475-484 | the last element takes the place of the removed one; a missing index changes nothing |
| Vector.Vector.Remove | include/zbxalgo.h:486-497 | the element is removed and the rest moved down; a missing index changes nothing |
| Vector.Vector.Uniq | include/zbxalgo.h:505-519 | keeps the first element of each run of equal neighbours although it overwrites what it compares |
| SortedSeqs.RunStartsMembers | include/zbxalgo.h:505-519 | run starts are the first element and each one that differs from its left neighbour, in order |
| SortedSeqs.RunHeadsAre | include/zbxalgo.h:505-519 | what is kept is just the elements at the run starts, in order |
| SortedSeqs.RunHeadsStrict | include/zbxalgo.h:505-519 | on sorted input the elements kept increase strictly |
| SortedSeqs.UniqElements | include/zbxalgo.h:505-519 | when only identical elements compare equal, exactly the elements of the input are kept, on sorted input once each |
| SortedSeqs.RunHeadsCover | include/zbxalgo.h:505-519 | an element matches what is kept iff it matched the input |
| Vector.Vector.NearestIndex | include/zbxalgo.h:521-545 | a matching index if there is a match, otherwise the split between smaller and larger elements |
| SortedSeqs.PlaceUnique | include/zbxalgo.h:521-545 | without a match there is only one such index |
| SortedSeqs.InsertAtPlace | include/zbxalgo.h:444-456 | inserting there keeps the vector sorted and adds exactly the value |
| Vector.Vector.LSearchFrom | include/zbxalgo.h:561-582 | from the caller's index on, the index moves past smaller elements only and stops at the match if found, else at a larger element or the end |
| SortedSeqs.LSearchAnswers | include/zbxalgo.h:561-582 | on sorted input it is found iff it is there, and the index ends at the first element not below the value |
| SortedSeqs.LSearchSeriesAnswers | include/zbxalgo.h:561-582 | a nondecreasing series with one carried index answers each membership question, and the index ends at the first element not below the last value |
| Vector.Vector.Search | include/zbxalgo.h:584-596 | the first match, or none |
| Vector.Vector.SetDifference | include/zbxalgo.h:599-632 | the block-moving loop leaves the merge difference of the two sequences, also when both are one vector |
| SortedSeqs.SetDiffItself | include/zbxalgo.h:599-632 | which is then empty |
| SortedSeqs.SetDiffCorrect | include/zbxalgo.h:599-632 | on sorted inputs the result is sorted and each class of equal elements loses exactly as many as the right holds |
| SortedSeqs.SetDiffDropsFirst | include/zbxalgo.h:599-632 | of each class of equal elements the first ones go, as many as the right holds, and the others stay in order |
| SortedSeqs.SetDiffMultiset | include/zbxalgo.h:599-632 | when only identical elements compare equal, it is the difference of the multisets |
| Vector.Vector.Reserve | include/zbxalgo.h:634-642 | contents unchanged, capacity at least the size asked for |
| Serialize.MessageRoundTrip | include/zbxserialize.h:46-125 | any list of fields that fits in 32 bits reads back as written and is consumed exactly, NULL and empty string kept apart |
| Serialize.Layout | include/zbxserialize.h:46-77 | the bytes of a field: four zeros for NULL, else its length and its contents, the string's zero counted and every number lowest byte first |
| Serialize.FieldsInOrder | include/zbxserialize.h:46-77 | fields stand in the message in order, each where those before it end |
| Serialize.UpToZeroExactly | include/zbxserialize.h:98-107 | a string read ends before the first zero or with its block |
| Serialize.FieldRoundTrip | include/zbxserialize.h:59-125 | one field followed by anything reads back as itself |
| Serialize.PreparedIsWritten | include/zbxserialize.h:20-44 | the prepared length is the number of bytes written iff that number fits in 32 bits |
| Serialize.PreparedAllMod | include/zbxserialize.h:20-44 | in general it is that number modulo 2 to the 32 |
| Serialize.WriteValue | include/zbxserialize.h:46-55 | exactly the value's bytes are written |
| Serialize.WritePrefixed | include/zbxserialize.h:57-77 | exactly the length prefix and payload are written, four zero bytes for nothing |
| Serialize.WrittenIsRead | include/zbxserialize.h:59-122 | reading where a field was written gives it back |
| Serialize.ReadStr | include/zbxserialize.h:98-107 | a string up to its zero, or NULL for length 0 |
| Serialize.ReadVector | include/zbxserialize.h:109-122 | the values are added behind those already held |
| Serialize.WriteMessage | include/zbxserialize.h:20-77 | prepare, allocate and write in one: the buffer is exactly the encoding of the fields |
| Serialize.ReadMessage | include/zbxserialize.h:79-125 | the fields read one after another are those the format describes |
| Serialize.SendAndReceive | include/zbxserialize.h:20-125 | what is written and read back is what was given, and the prepared length is used up |
| SortOrder.Repair | ui/graphs.php:617-635 | for any input the loops leave the orders of the one pass; they increase strictly iff deficits grow by one at most, and are then the repaired ones; no neighbours are equal, and nothing changes iff none were |
| SortOrder.LoopedIsOnePass | ui/graphs.php:617-635 | for any input the nested loops compute a left-to-right recurrence with a counter of passes |
| SortOrder.IncreasingExactly | ui/graphs.php:617-635 | for any input each order stays between the given and the repaired one, and the result increases strictly iff no order has to be raised more than one step beyond the furthest an earlier one has to be |
| SortOrder.KeepsUpExactly | ui/graphs.php:617-635 | up to any position the orders are the repaired ones iff the deficits so far grow by one at most; the passes run are then the largest of them |
| SortOrder.RepairedLeast | ui/graphs.php:617-635 | the repaired orders r[0] = s[0], r[k] = max(s[k], r[k-1] + 1) increase strictly, lower none, and are pointwise the smallest that do |
| SortOrder.SortedIsRepaired | ui/graphs.php:617-635 | nondecreasing orders become the repaired ones |
| SortOrder.NeighboursParted | ui/graphs.php:617-635 | for any input no two neighbours stay equal, orders without equal neighbours and no others are left alone, and a second run changes nothing |
| SortOrder.RepetitionExactly | ui/graphs.php:617-635 | the result has no repetition iff the one pass has none; without equal neighbours iff the input had none; always when deficits grow by one at most |
| SortOrder.LoopedUnchanged | ui/graphs.php:625-631 | without equal neighbours nothing changes |
| SortOrder.UnsortedKeepsRepetition | ui/graphs.php:617-635 | an unsorted input that keeps two equal orders |
| SortOrder.UnsortedRepaired | ui/graphs.php:617-635 | an unsorted input, 1, 1, 5, 4, that is repaired completely |

## Left out

- HTTP, SSH, XML and JSON parsing, AI providers, subprocess spawning, printing and file contents; reads and writes of the known-name and serial files are taken to succeed, rows to be well formed, and recursion to be unbounded.
- The text of loop descriptions, issues and suggestions, device names, and the polling loop with its 25 second cut-off.
- The exact number of active loops: which cycles besides the necessary ones are reported depends on the order of sets, so only zero versus non-zero, the links covered and a lower and an upper bound are stated.
- Vector.Vector.SetDifference: two different vectors have storage of their own; two that share one block are not covered.
- Vector.AppendsAreAmortised: capacities are unbounded integers; the C int product overflows beyond 715827882 elements.
- Vector.Vector.RemoveNoOrder: the end of the program on a missing index is a false result with the vector unchanged.
- Vector.Vector.Remove: the same.
- create_ext, destroy, sort, bsearch and clear_ext of the vector: allocation callbacks or library routines; append_ptr is append.
- Serialize.ReadVector: a length that is not a multiple of eight is outside the model, as are incomplete buffers; the macros do not check either. Compact integers and length-prefixed binary blocks are left out.
- Serialize.WriteValue: plain values are given by their bytes, not as numbers.
- LocalAnalysis.Analyse: text for which isdigit() holds and int() fails makes the source raise; the model's text functions are total. Positions stand for the records the source names by MAC address.
- LockProtocol.ExclusionExactly: times are whole milliseconds; a process's own reads between its two clock calls take no steps of their own.
- SortOrder.Repair: the library sort by order that follows it is left out.
- CliTable.ParseTable: takes the lines of the stripped text; splitting the text is left out.
- Headers that only declare functions (hash sets, heaps, queues, expressions, caches), bit-packing macros, form handling, permissions and rendering.
