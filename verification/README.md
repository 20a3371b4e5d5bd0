# A verified model of the address allocator and the traffic history

The server hands out IP prefixes to VPN peers from a few configured nets and
keeps a history of each peer's traffic. This project models the parts that
carry that logic and proves what they promise:

* **The prefix tree** (`nettree/tree.go`). `UintTree.dfy` has the tree as linked
  nodes changed in place, with word-sized counters and the loops of the source.
  Its invariant is stated position by position: links, ownership, depth, "a node
  without children is a stored block", and "a counter is the number of covered
  addresses below, cut to a word". Every method is tied to a pure trie
  (`Tries.dfy`), whose addresses are counted in `Counting.dfy`, and through it to
  a flat set of address ranges (`FlatModel.dfy`, `TreeRuns.dfy`).
* **The address trees** (`nettree/ip.go`). `Prefixes.dfy` is what the code uses of
  `net/netip`; `Nets.dfy` says what each operation means for the set of held
  prefixes; `IPTree.dfy` is the object, with the word arithmetic.
* **The allocator** (`subnets/subnets.go`, `parseAllocNets`). `Allocators.dfy` and
  `LeaseRuns.dfy` give the state as a value, the runs over it and the restart;
  `Service.dfy` is the object with its loops; `AllocNets.dfy` checks the nets.
* **The requests** (`subnets.go`, `peers.go`, `tx/transaction.go`). `Requests.dfy`
  and `Systems.dfy` give trees and stored rows together, `SystemRuns.dfy` whole runs
  and restarts, `Tables.dfy` what happens to the tables alone, `Server.dfy` the handlers
  in place, `Transactions.dfy` the commit/rollback combinator.
* **The traffic history** (`stats.go`, `stats_cache.go`, `sql/queries.sql`,
  `peerstats/stats.go`) in `History.dfy` and `TotalStats.dfy`.

`Powers.dfy` and `Paths.dfy` hold the arithmetic: what a word keeps of a number,
and blocks of addresses as bit strings (section 3.1 of RFC 4632).

Some properties hold only under a condition, and the condition is proved exact.

* The free-space expression of `AllocateRandom` is right for every tree but an empty one with
  64 host bits, which a live net never is because host 0 is held (`Nets.FreeExprIsFree`).
* The address `AllocateRandom` returns is the one it took iff the net has no host bits set,
  which `parseAllocNets` sees to (`Nets.GivenIsTakenIff`).
* A request keeps every exclusive row leased, and changes nothing if it fails, iff it is not a
  deletion of an exclusive subnet whose row then stays (`Systems.StepKeepsAgreement`). After one
  that is, its prefix can be reserved again, and in that state a restart fails
  (`SystemRuns.UnhingedBlocksRestart`).
* After every run of requests, whatever fails in it, a restart succeeds iff no two exclusive rows
  share an address (`SystemRuns.RestartAfterRun`). They never do, at any moment of a run, iff no
  request adds a row that clashes with one in the table (`SystemRuns.RowsNeverOverlapIff`).
* A request leaves nothing leased without a row iff that was so before, and it is not a deletion
  of a peer whose exclusive rows the database deletes with it (`Systems.StepStaysExact`). Those
  prefixes stay taken until a restart; a restart rebuilds the very trees iff there are none
  (`SystemRuns.RestartRebuildsIff`).
* Adjacent periods add up for every history iff the inner bound is not 0
  (`History.TelescopesIff`). A rollup leaves a period's answer alone for every history iff both
  bounds are from the cut on, or the period is empty (`History.RollupKeepsIff`). A period has no
  negative traffic on every history of growing totals iff it does not end before it begins
  (`History.TrafficNotNegativeIff`).

The documentation of `PutNthFree` asks for "at least n free addresses"; the walk
needs more than n, and that is the precondition here.

`dafny verify dfyconfig.toml` checks the whole project.

## Model

| member | source | states |
|---|---|---|
| `UintTrees.UintTree.constructor` | nettree/tree.go:12-17 | an empty tree of any width and any number of prefix bits up to it satisfies the whole invariant |
| `UintTrees.UintTree.Overlaps` | nettree/tree.go:19-44 | the loop answers like the pure trie, for every word and prefix length |
| `UintTrees.UintTree.Put` | nettree/tree.go:47-102 | keeps the heap invariant; stores the block iff the pure trie can; an answer of false leaves every field of every node as it was |
| `UintTrees.UintTree.PutWalk` | nettree/tree.go:52-94 | the walk down grows new nodes only when it will succeed, and a blocked walk has changed nothing |
| `UintTrees.UintTree.UpdateParents` | nettree/tree.go:96-101 | adding the block size on the way to the root turns all counters into those of the new trie; the loop ends because depth falls along parents |
| `UintTrees.UintTree.Delete` | nettree/tree.go:104-150 | keeps the heap invariant; removes the block iff exactly it is stored; an answer of false changes nothing |
| `UintTrees.UintTree.RemoveUpwards` | nettree/tree.go:130-149 | the way up subtracts from every counter on it and drops exactly the nodes left without children |
| `UintTrees.UintTree.PutNthFree` | nettree/tree.go:153-180 | stores and returns the n-th free address for every n below the number of free ones; the inner `Put` cannot fail, so the panic is unreachable |
| `UintTrees.UintTree.SelectHalf` | nettree/tree.go:165-178 | one round goes to the half that holds the address sought, skipping the free addresses of the left half if it is the right one |
| `UintTrees.UintTree.Size` | nettree/tree.go:182-192 | the number of covered addresses, also when the root counter has wrapped to 0 |
| `UintTrees.WordCount` | nettree/tree.go:9 | a nonempty tree's counter reads 0 exactly when it covers a full word of addresses |
| `UintTrees.OrBitSets` | nettree/tree.go:174 | or-ing the mask bit in sets that bit and leaves all others alone |
| `UintTrees.OrIsStep` | nettree/tree.go:174 | setting the mask bit in `netStart` moves it to the start of the right half: the mask walk and the shifting walk agree |
| `Tries.OverlapsIff` | nettree/tree.go:19-44 | `Overlaps` is true iff some stored block lies above or below the asked one |
| `Tries.PutIffFree` | nettree/tree.go:46-102 | `Put` succeeds iff `Overlaps` was false before it |
| `Tries.PutHeld` | nettree/tree.go:46-102 | `Put` fails iff a stored block meets the asked one, and otherwise adds exactly that block |
| `Tries.DeleteHeld` | nettree/tree.go:104-150 | `Delete` succeeds iff exactly the block is stored, and removes exactly that block |
| `Tries.Canonical` | nettree/tree.go:52-72 | the shape of a trie is fixed by the set of stored blocks, not by order or history |
| `Tries.PutThenDelete` | nettree/tree.go:104-150 | deleting a block just put gives back the trie from before |
| `Tries.DeleteThenPut` | nettree/tree.go:46-102 | putting back a block just deleted gives back the trie from before |
| `Counting.PutCount` | nettree/tree.go:96-100 | a successful `Put` raises the covered count by the size of the block |
| `Counting.DeleteCount` | nettree/tree.go:130-132 | a successful `Delete` lowers the covered count by the size of the block |
| `Counting.CountIsCardinality` | nettree/tree_test.go:33-56 | the counter recurrence equals the size of the set of covered addresses |
| `Counting.NthFreeIsSelect` | nettree/tree.go:153-180 | the address found is free and has exactly n free addresses below it |
| `Counting.SelectUnique` | nettree/tree.go:152-153 | no other address is the n-th free one |
| `Counting.NthFreeCanBePut` | nettree/tree.go:158-161 | a single-address `Put` of the n-th free address succeeds |
| `Paths.ComparableIffMeet` | nettree/tree.go:19-44 | two blocks share an address iff one's bits lead the other's, iff their ranges meet |
| `FlatModel.OverlapsRefines` | nettree/tree_test.go:199-207 | `Overlaps` answers like a set of ranges, for any bits below the prefix |
| `FlatModel.PutRefines` | nettree/tree_test.go:183-197 | `Put` succeeds iff no range of the flat model meets the asked one, and adds just that range |
| `FlatModel.DeleteRefines` | nettree/tree_test.go:209-224 | `Delete` succeeds iff exactly that range is in the flat model, and removes just it |
| `FlatModel.NthFreeRefines` | nettree/tree_test.go:226-247 | the walk by counters finds the address that scanning every address finds |
| `FlatModel.SizeRefines` | nettree/tree_test.go:294-294 | the size is the number of addresses covered in the flat model |
| `FlatModel.BlocksDisjoint` | nettree/tree.go:46-47 | stored ranges lie in the net and are pairwise disjoint |
| `TreeRuns.Step` | nettree/tree_test.go:265-310 | one operation on the linked tree answers like the flat model and leaves it with the same ranges |
| `TreeRuns.Run` | nettree/tree_test.go:249-315 | every sequence of operations with arguments in range gives the answers of the flat model |
| `TreeRuns.SameBlocksSameTree` | nettree/tree.go:52-72 | two valid linked trees holding the same blocks have nodes at the same positions, with the same counters and children |
| `Prefixes.WithinIffSubset` | nettree/ip.go:61-63 | the guard "address in the net and prefix no shorter" is containment of address sets |
| `Prefixes.ShareIffComparable` | nettree/ip.go:65-70 | two prefixes of a net share an address iff their paths in the tree are comparable |
| `Prefixes.PrefixAtPath` | nettree/ip.go:66-66 | masking the address and counting the extra bits names exactly the prefix with its host bits cleared |
| `Prefixes.MaskedIsRemainder` | subnets.go:66-66 | masking takes away the remainder by the number of hosts; a prefix has no host bits iff masking leaves it alone |
| `Prefixes.ContainsIsRange` | nettree/ip.go:61-61 | a prefix contains just the addresses of its family in the range of its hosts |
| `Prefixes.HostPrefixIsOne` | utils/utils.go:5-11 | the prefix made from an address contains that address alone |
| `Nets.NewNetHolds` | nettree/ip.go:36-55 | too small iff longer than /30 or, for IPv6, /126; too big iff IPv6 and shorter than /64; else the net holds host 0 and, for IPv4, the last host, and nothing else |
| `Nets.NetPutHolds` | nettree/ip.go:57-71 | out of net iff not inside, overlap iff inside and sharing an address with a held prefix, else exactly the prefix is held more |
| `Nets.NetDeleteHolds` | nettree/ip.go:73-79 | true iff exactly the prefix, its host bits ignored, is held, and then just it is gone |
| `Nets.NetTakeHolds` | nettree/ip.go:94-98 | the address given lies in the net and in no held prefix, and the net then is as if it had been `Put` |
| `Nets.EveryFreeAddress` | nettree/ip.go:89-94 | every free address of the net is the result for some random number below the bound |
| `Nets.ChoiceIsUnique` | nettree/ip.go:89-94 | and for only one: the draw is a bijection onto the free addresses |
| `Nets.SamePrefixesSameNet` | nettree/tree.go:52-72 | the held prefixes decide a net's tree |
| `Nets.FreeExprIsFree` | nettree/ip.go:168-172 | the wrapping expression equals the number of free addresses iff the tree is not an empty one as wide as the word; there it reads 0 |
| `Nets.NoCarry` | nettree/ip.go:181-186 | from the address of a masked net, adding the offset to the low word never carries out of it |
| `Nets.GivenIsTakenIff` | nettree/ip.go:181-186 | for every tree and choice, the address returned is the one taken iff the net has no host bits set |
| `IPTrees.IPTree.New` | nettree/ip.go:116-137 | for every net, host bits or not: fails with the source's errors in its order, else gives a valid tree of the family's word width holding the reserved hosts |
| `IPTrees.IPTree.Put` | nettree/ip.go:139-154 | the new held set and the error are those of the net as a value |
| `IPTrees.IPTree.Delete` | nettree/ip.go:156-164 | the new held set and the answer are those of the net as a value |
| `IPTrees.IPTree.FreeSpace` | nettree/ip.go:168-168 | the computed size is the free count, except 0 for an empty tree with 64 host bits |
| `IPTrees.IPTree.AllocateRandom` | nettree/ip.go:166-188 | no free address iff the net is full or is that empty tree, and then nothing changed; else takes the n-th free address for some n below the free count and returns the net's address with the offset in its low word |
| `AllocNets.OverlapTest` | main.go:102-102 | asking each net for the other's address decides whether they meet at all |
| `AllocNets.FindOverlap` | main.go:100-106 | the pair loop finds nothing iff the nets are pairwise disjoint, and else the first two, in loop order, that share an address |
| `AllocNets.ParseAllocNets` | main.go:86-108 | accepts exactly the lists of masked prefixes that are pairwise disjoint as address sets; each refusal names the first bad entry, or the first two nets that overlap |
| `Allocators.ReserveErrors` | subnets/subnets.go:66-84 | out of net iff no net contains the prefix, overlap iff one does and a held prefix, in any net, shares an address; an error changes nothing |
| `Allocators.ReserveMeaning` | subnets/subnets.go:70-84 | a successful reservation holds exactly the prefix more |
| `Allocators.ReleaseMeaning` | subnets/subnets.go:86-94 | true iff exactly the prefix is held, and then just it is let go |
| `Allocators.HeldDisjoint` | subnets/subnets.go:66-70 | held prefixes never share an address, across all nets |
| `Allocators.SameHeldSameState` | subnets/subnets.go:12-14 | nets and held prefixes decide all trees: neither order nor history matter |
| `Allocators.ReserveKeepsInv` | subnets/subnets.go:70-84 | keeps reserved hosts held and nets disjoint, and adds one lease or none |
| `Allocators.ReleaseKeepsInv` | subnets/subnets.go:86-94 | giving a lease back keeps the same and removes exactly that lease |
| `LeaseRuns.TakenMeaning` | subnets/subnets.go:97-109 | the addresses given out, one of each net, were held by nobody and are all that is held more |
| `LeaseRuns.TakeUndone` | subnets/subnets.go:113-114 | deleting an address just given out restores the net's tree exactly |
| `LeaseRuns.RunKeepsLedger` | subnets/subnets.go:70-117 | over every run the leases counted from the answers are exactly what is held beyond the reserved hosts |
| `LeaseRuns.ReservedAddrs` | nettree/ip.go:52-53 | the reserved hosts are host 0 and, for IPv4, the last host, and no others |
| `LeaseRuns.LastAddrIsLast` | nettree/ip.go:53-53 | the last host is the greatest address of the net |
| `LeaseRuns.LeasesAreSafe` | nettree/ip.go:52-53 | a lease lies in a net, shares no address with another, and contains neither host 0 of a net nor the last host of an IPv4 net |
| `LeaseRuns.EveryRunIsSafe` | subnets/subnets.go:66-117 | the same for whole runs of reserve, random assignment and giving back, from new trees for any disjoint nets |
| `LeaseRuns.CreateAllMeaning` | subnets/subnets.go:19-39 | trees can be made iff every configured net is usable, and hold the reserved hosts only |
| `LeaseRuns.CreateAllErrors` | subnets/subnets.go:19-39 | where trees cannot be made, the error is that of the first net no tree can be made for |
| `LeaseRuns.ReplayOkIff` | subnets/subnets.go:47-61 | a replay succeeds iff every exclusive row lies in a net and shares no address with what is held, nor with another exclusive row; the order of rows does not matter |
| `LeaseRuns.ReplayReaches` | subnets/subnets.go:47-61 | replaying rows in any order reaches the state that holds them |
| `LeaseRuns.RestartHolds` | subnets/subnets.go:17-64 | if all exclusive rows are leased, a restart never fails and leases just the rows; it rebuilds structurally the same trees iff nothing else was leased |
| `LeaseRuns.RestartRestores` | subnets/subnets.go:17-64 | if the exclusive rows are the leases, a restart rebuilds the same trees |
| `Services.Service.Reserve` | subnets/subnets.go:70-84 | the loop over the trees does what the allocator as a value does, and returns the tree that took the prefix |
| `Services.Service.Delete` | subnets/subnets.go:86-94 | the loop lets the prefix go in the first net that holds it, and answers like the allocator as a value |
| `Services.Service.AssignRandomInEachNet` | subnets/subnets.go:96-117 | all or nothing, in any state: one free address of each net, or, iff some net gives none, every tree exactly as before |
| `Services.BarrenIffFull` | nettree/ip.go:167-172 | while nets hold their reserved hosts, some net gives none iff some net is full |
| `Services.Service.Undo` | subnets/subnets.go:112-116 | giving back in forward order what was taken so far restores all trees |
| `Services.Service.CreateTrees` | subnets/subnets.go:18-39 | distinct new trees for the nets in order, or the first failure |
| `Services.Service.NewService` | subnets/subnets.go:17-64 | creates the trees, replays the rows, and stops at the first error, exactly as the restart as a value does |
| `Requests.ReserveListMeaning` | peers.go:242-251 | wherever the loop stops, just the entries taken are held more, all different and each in the net that took it |
| `Requests.ReserveListTakesAll` | peers.go:242-251 | without an error all entries that may not overlap are held, and no two of them are the same |
| `Requests.ListOkIff` | peers.go:242-251 | a list is taken iff every exclusive entry lies in a net, clear of what is held and of the other exclusive entries |
| `Requests.ListErrors` | peers.go:242-251 | else the first entry that cannot be placed behind those before it gives the error: out of net iff no net contains it, overlap iff one does |
| `Requests.ReplayIsList` | subnets/subnets.go:47-61 | a restart takes its rows, and fails, as a request for all of them would |
| `Requests.RollbackRestores` | peers.go:205-210 | for every list, duplicates and may-overlap entries included, and every failing position, the forward rollback gives back the very trees from before |
| `Systems.StorePeerAtomic` | peers.go:189-328 | adding a peer happens completely or, wherever it fails up to and with the commit, not at all: trees, rows and peers; rows and leases stay in agreement |
| `Systems.StoreSubnetAtomic` | subnets.go:73-107 | the same for a reserved subnet |
| `Systems.RandomAtomic` | peers.go:252-291 | storing the random addresses keeps the agreement; rolling them back restores the trees |
| `Systems.DeleteAgreesIff` | subnets.go:164-207 | deleting a subnet keeps every exclusive row leased, and a failure changes nothing, iff it is not the row of an exclusive one that stays |
| `Systems.DeletePeerAgrees` | peers.go:449-466 | deleting a peer keeps every row leased and changes nothing if refused; afterwards nothing is leased without a row iff that was so before, and the peer has no exclusive rows that go with it |
| `Systems.StepKeepsAgreement` | subnets.go:73-107 | reserving or deleting a subnet and adding or deleting a peer keep "every exclusive row is leased, and no two have one prefix", and change nothing if they fail, iff it is not that deletion |
| `Systems.StepStaysExact` | peers.go:449-466 | nothing is leased without a row after any of these requests iff that was so before, and it is not that deletion of a peer |
| `SystemRuns.StepStaysSane` | subnets.go:164-207 | every request, also a deletion that leaves its row, keeps the trees sound, and every exclusive row in a net and clear of the reserved hosts |
| `SystemRuns.RestartOfSystem` | subnets/subnets.go:17-64 | a restart from such tables succeeds iff no two exclusive rows share an address; it leases just the rows, and rebuilds the very trees iff just those were leased |
| `SystemRuns.RestartAfterRun` | subnets/subnets.go:17-64 | after every run of these requests, whatever fails in it, a restart succeeds iff no two exclusive rows share an address |
| `SystemRuns.RestartRebuildsIff` | subnets/subnets.go:17-64 | after a run that leaves no row behind its entry a restart succeeds, and rebuilds the live trees iff at first nothing was leased without a row and no peer's exclusive rows were deleted with it |
| `SystemRuns.UnhingedBlocksRestart` | subnets.go:189-204 | after a deletion that left its exclusive row, reserving the prefix again goes through, and in the state it leads to a restart fails |
| `SystemRuns.StepStaysApart` | subnets.go:73-107 | exclusive rows that share no address still share none after a request iff it adds no row that clashes with them |
| `SystemRuns.RowsNeverOverlapIff` | sql/migrations/20260322102405_create_subnets.sql:4-6 | from the start on, at every moment of every run, exclusive rows share no address, so their prefixes are unique, iff no request clashes; and none does while no row stays behind its entry |
| `SystemRuns.StartAgrees` | subnets/subnets.go:17-39 | new trees and empty tables agree exactly |
| `Tables.PeerStored` | peers.go:235-291 | a peer that is added has an id that no peer and no row had; the old rows stay, and its rows follow in the order of the request, each as asked, with its owner and an id of its own |
| `Tables.RandomPeerStored` | peers.go:252-291 | the same for random addresses |
| `Tables.HostRowsAre` | peers.go:257-272 | whose rows are exclusive and hold each address alone, in the order of the nets |
| `Tables.SubnetStored` | subnets.go:83-88 | a reserved subnet is stored as asked, with no owner and an id of its own; peers and old rows stay |
| `Tables.SubnetDeleted` | subnets.go:164-207 | a deleted subnet's row is gone, exclusive or not, all others stay in order, and it cannot be deleted again |
| `Tables.PeerDeleted` | peers.go:449-466 | a deleted peer is gone and no other; with the cascade just its rows are, in order, and without it the rows stay; it cannot be deleted again |
| `Tables.AddThenDelete` | peers.go:235-291 | deleting a peer that was just added, rows and all, gives back rows and peers from before |
| `Tables.FailedKeepsTables` | tx/transaction.go:51-61 | a request that does not go through leaves the tables alone, whatever state it finds |
| `Tables.RunStaysNumbered` | sql/migrations/20260322102405_create_subnets.sql:3-3 | over every run ids of rows and peers stay unique and below those still to come |
| `Servers.Server.ReserveAll` | peers.go:242-251 | the loop reserves as the list function says and each entry remembers the tree that took it, the failing one none |
| `Servers.Server.RollbackAll` | peers.go:205-210 | the loop deletes, in list order, at the remembered trees |
| `Servers.Server.StoreRows` | peers.go:275-291 | stores the rows of a peer in order, all or just those before the one that fails |
| `Servers.Server.Finish` | peers.go:189-291 | once prefixes are reserved: all rows, or the tables as at the start and the trees rolled back in list order, after an error, a panic or a failed commit |
| `Servers.Server.AddPeer` | peers.go:189-328 | for every list and every place where the request can fail, the commit included: the step of the system, and the first failure as the answer; tables with one fresh peer and its rows more, or as before |
| `Servers.Server.AddPeerRandom` | peers.go:252-291 | one address of each net stored for one fresh peer, as a step of the system, or everything as before; refused iff some net gives none |
| `Servers.Server.ReserveSubnet` | subnets.go:66-107 | set host bits refused, then the step of the system, with what failed first as the answer; one row more without an owner, or tables as before |
| `Servers.Server.DeleteSubnet` | subnets.go:164-207 | the step of the system also where the database fails to find or to delete the row; not found iff no row has the id; the row is gone if it is done |
| `Servers.Server.DeletePeer` | peers.go:449-466 | the peer is gone if it is done, its rows with it or not; tables as before if the database refuses; the trees stay |
| `Servers.PeerAnswers` | peers.go:216-328 | refused for the first entry that cannot be placed, as overlapping iff some net contains it, else as out of net; not stored where the database or `wg` fails; done iff all entries can be placed and nothing fails |
| `Servers.SubnetAnswers` | subnets.go:66-118 | host bits refused; out of net iff exclusive and in no net; overlapping iff in one and sharing an address with something held; else done or not stored |
| `Servers.Server.Restarted` | subnets/subnets.go:17-64 | for any system in agreement, starting again from nets and tables comes up with just the rows leased, and as that very system iff nothing else was |
| `Transactions.PeerUndoes` | peers.go:198-215 | the rollback takes back whatever the action did, wherever it or the commit fails |
| `Transactions.AddPeerIsTransaction` | tx/transaction.go:31-76 | adding a peer, run by `Do`, takes the step of the system; it reports what failed first, with the rollback's own error after a failed commit, or panics; and unless it succeeds nothing has changed |
| `Transactions.PeerReports` | tx/transaction.go:51-75 | the report names what failed first: an entry that cannot be placed, the database, or the commit with the rollback's own error; a panic stays one |
| `Transactions.DoWithoutRollback` | tx/transaction.go:51-70 | without a rollback the state stays as the failure left it, and its cause is reported |
| `History.LastIsLatest` | sql/queries.sql:101-105 | the row found is of the peer, not after the bound, and no such row is later; none is found iff there is none |
| `History.LastOfAppend` | sql/queries.sql:88-99 | of rows stored after others the last match is found, unless an earlier match has a later time |
| `History.YoungerRows` | sql/queries.sql:107-109 | the rows kept are exactly those after the cut |
| `History.RolledTotals` | stats_cache.go:246-283 | after a rollup a listed peer's totals are as before at every bound from the cut on, and zero before it |
| `History.RollupsCollapse` | stats_cache.go:246-283 | rolling up, storing later rows and rolling up again leaves the same table as rolling up all rows once, at the later cut |
| `History.RunKeepsPeriods` | stats_cache.go:246-283 | after any run of stored rows and rollups, time running forward, a period from the last cut on or an empty one is answered as if there had been no rollup |
| `History.RunCollapses` | stats_cache.go:246-283 | all rollups of such a run collapse into the last one: it leaves what a single rollup of all rows ever stored leaves |
| `History.OneRowEach` | stats_cache.go:270-280 | after a rollup each listed peer has exactly one row up to the cut |
| `History.ReadsIffTotals` | sql/queries.sql:101-105 | what is read under a bound is in the peer's latest row up to it, of equally late ones the one stored last, or zero if there is none, and nothing else |
| `History.PeerStatsRead` | stats.go:21-60 | the answer is what can be read at the end of the period less what can be read before it, first in `tx`, then in `rx`; 0 as end means no bound |
| `History.PeerStatsGrow` | stats.go:21-60 | for rows stored in time order that is the growth, in `tx` and in `rx`, of the peer's rows in the period, summed up |
| `History.RollupKeepsIff` | stats_cache.go:246-283 | a period's answer is the same before and after a rollup, for every history, iff both bounds are from the cut on or the period is empty |
| `History.TelescopesIff` | stats.go:21-60 | adjacent periods add up for every history iff the inner bound is not the 0 that means "no bound" |
| `History.TrafficNotNegativeIff` | stats.go:59-59 | a period has no negative traffic on every history whose totals never fall, iff it does not end before it begins |
| `History.RunMonotone` | stats_cache.go:246-283 | if the rows ever stored have totals that never fall, so has the table after any run of rollups |
| `History.RunTrafficNotNegative` | stats.go:59-59 | so no such period has negative traffic after any run of stored rows and rollups |
| `History.StatsTable.RollupOldStats` | stats_cache.go:239-284 | the two loops leave the younger rows and one summary at the cut for each peer, or, if the database fails at any step or at the commit, the table as before |
| `TotalStats.TotalStatCalc.constructor` | peerstats/stats.go:18-26 | starts with the given totals and no sample |
| `TotalStats.TotalStatCalc.Calculate` | peerstats/stats.go:30-50 | over any run: the starting total, plus the last sample before each detected reset, plus the current sample, in 64-bit words; a new period iff a counter fell, or handshake or endpoint was lost |
| `TotalStats.TotalStarts` | peerstats/stats.go:18-26 | before any sample the total is the starting one |
| `TotalStats.TotalGrows` | peerstats/stats.go:30-50 | with each sample the total grows by all of it if a counter fell, or handshake or endpoint was lost, and else by how much it grew |
| `TotalStats.TotalFits` | peerstats/stats.go:36-48 | the total kept in words is the exact one cut to words, and so the exact one iff that fits |
| `TotalStats.TotalsNeverFall` | peerstats/stats.go:30-50 | exact totals never fall when no sample is negative |
| `TotalStats.TrafficIsPeriods` | peerstats/stats.go:13-15 | true traffic, summed up sample by sample, is that of the finished periods plus the last sample |
| `TotalStats.TotalAgainstTruth` | peerstats/stats.go:28-30 | the exact total never exceeds the true traffic, and equals it iff every real reset shows in the samples or happened at counters of zero |
| `TotalStats.ShownIsTrue` | peerstats/stats.go:28-34 | if every real reset shows as one of the four, the total is the true traffic |

## Left out

- HTTP, JSON, TLS, environment and `wg` plumbing; parsing and printing of prefixes, and IPv6 zones: a prefix is family, address and bits.
- SQLite: a table is a sequence of rows in order of insertion. Among rows of a peer with equal timestamps the one inserted last is taken to be found, since the query leaves that open. Rolling back a database transaction, or failing to commit it, leaves the tables as they were at its start.
- Randomness: `rand.Int` is any number below its bound, and results hold for all of them; nothing is said about how likely each is.
- `big.Int.Uint64()` of 2^64, which Go leaves open, is taken to give the low 64 bits (nettree/ip.go:169).
- The two tree types behind the interface `IPTree`: one class whose net's family chooses the branch. `Version` and `Prefix` are plain reads of the net.
- LeaseRuns.RunKeepsLedger: in a run only leases are given back, never the reserved hosts, as the source asks of its callers (nettree/ip.go:157).
- Servers.Server.AddPeer: what `wg` keeps of a peer that is rolled back, and the stats cache. After a failed commit rollback releases the lock a second time, which ends the process; tables and trees are then as modelled.
- Servers.Server.DeletePeer: the peer is named by its id, where the request has its public key. Whether its rows go with it hangs on a setting of the database that the source does not show, so both are modelled; that a peer with a history is refused where foreign keys are enforced is the flag `removed`, not tied to the history. An error of `wg` comes after the row is gone and changes nothing here.
- Transactions.AddPeerIsTransaction: `Do` is a function over a state passed from closure to closure, because closures that change captured variables cannot be written; the methods of `Server` follow its order of calls themselves. Panics inside commit or rollback are not modelled.
- Layout: the loop bodies of `Put`, `Delete` and `PutNthFree`, the filling of a new tree, and the code behind a label, are methods of their own, called where the source has them inline.
- The cache of running totals: it is not kept in step with the peers table when a peer is added twice (peers.go:212), and collecting works on a copy of the calculator that is not stored back (stats_cache.go:179-184), so run-wide totals are stated of `TotalStatCalc` alone.
- The configuration answer for prefixes that may overlap, which have no tree (peers.go:356-357).
- Locks and concurrent requests: each request runs alone, as the database lock makes it.
