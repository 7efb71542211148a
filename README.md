# RepCRec concurrency control in Dafny

RepCRec simulates a replicated key-value database: ten data sites hold the
variables x1..x20. Even variables are replicated at every site. Odd variable
xi lives only at site i % 10 + 1. Each variable starts at 10 * i.
Transactions run under strict two-phase locking with the available-copies
rule. A write goes to every UP site that can take it. A read is served by the
first site that can serve it. Read-only transactions read from a snapshot
taken at `beginRO`. A waits-for graph and a depth-first search detect
deadlock, and the youngest transaction of the reported cycle is aborted.
Sites fail and recover. A recovered site refuses reads of replicated
variables until a commit rewrites them. It refuses writes to variables that
had uncommitted writes before it failed.

This project models the engine's core:

- the per-site lock manager;
- the site;
- the transaction manager's event loop;
- the script line parser.

Each component is written twice:

- as values: datatypes and functions describing what one operation does to
  the whole state;
- as imperative Dafny: classes whose fields are the program's fields, with
  `modifies` clauses. Each method is proved to leave exactly the state its
  function describes.

Lemmas then state what the source promises about those functions:

- what an operation does, case by case;
- the invariants every operation keeps;
- that every real deadlock is detected, but that the search also reports a
  node reached along two paths;
- the victim choice;
- the commit verdict;
- parser round trips.

Modules, in dependency order:

- `Choice`: picking an element of a non-empty set, used by the loops that
  model hash-map iteration in an unspecified order.
- `Records`: operations and transaction records (`src/operation.hpp`,
  `src/transaction.hpp`).
- `Locks`: the lock tables and `LockManager` (`src/lockManager.cpp`).
- `Sites`: the site state and `Site` (`src/site.cpp`).
- `WaitFor`: the waits-for graph, `dfs`, `hasCycle` and the cycle pool of
  `detectDeadLock`.
- `Protocol`: the transaction manager's state (`Engine`) and one function per
  operation. It also holds `EngineOk`, the invariant every step keeps, and the
  lemmas about both.
- `Loops`: the manager's loops over lists, maps and sets, each as a method
  proved against a `Protocol` function.
- `Manager`: `TransactionManager`, over ten `Site` objects.
- `Parser`: the `get*Operation` parsers and the script loop of
  `IOUtil::IOUtil`, over a sequence of lines.

The model follows the code as written, including these behaviours:

- **Default records.** `idToTransaction[...]` inserts a default record for an
  unknown id. After `abort(t)` the registry holds a default record for t
  marked ABORTED.
- **Shared holder set.** `write` shares one holder set across the sites. A
  transaction therefore upgrades its own shared lock at a site only when no
  earlier site reported another holder.
- **Snapshots.** A read-only snapshot copies from DOWN sites too. A later
  site overwrites an earlier one.
- **Recovery.** `recover` re-seeds every stored variable with its initial
  value, so committed values of a site are reset when it recovers.
- **Cycle search.** `dfs` keeps one visited set per root. It therefore
  reports a cycle when a node is reached along two paths, even in an acyclic
  graph (`DiamondReported`). The extracted pool is then empty, and
  transaction 0 is "aborted".
- **Iteration order.** Hash-map iteration happens in an unspecified order.
  It is modelled by arbitrary choice, and no lemma depends on which cycle is
  found first.

## Model

| member | source | states |
|---|---|---|
| Records.Blank | src/operation.cpp:3-4 | a fresh operation has every id, index and value at -1 and timestamp 0 |
| Records.NewTransaction | src/transaction.cpp:4-9 | a new transaction keeps its id, start time and read-only flag, is RUNNING, and has written and read nothing |
| Records.Touch | src/transactionManager.cpp:127-128 | a registry lookup adds exactly the looked-up id, with a default record when unknown, and keeps every other record |
| Records.Lookup | src/transactionManager.cpp:127-128 | a lookup sees the stored record, or the default record for an unknown id |
| Locks.GrantShared | src/lockManager.cpp:5-22 | without a write lock, the requester joins the variable's shared set (created if absent) and nothing else changes; with one, both tables are unchanged; table consistency is kept |
| Locks.GrantExclusive | src/lockManager.cpp:24-32 | an exclusive lock is granted only on a variable in neither table, and the tables are otherwise unchanged; consistency is kept |
| Locks.WriteBlockers | src/lockManager.cpp:33-40 | a refused write request adds every shared holder when a shared entry exists, else the write holder; a granted one adds nothing |
| Locks.Promote | src/lockManager.cpp:44-50 | after an upgrade the variable has no shared entry and is write-locked by the transaction; every other variable's locks are unchanged; consistency is kept |
| Locks.ReleasedWrites | src/lockManager.cpp:67-73 | the released variables are exactly those whose write lock the transaction held |
| Locks.Release | src/lockManager.cpp:52-80 | after a release the transaction holds no lock, every shared set loses exactly it, emptied sets are gone, and every other write lock is kept; consistency is kept |
| Locks.DropHolder | src/lockManager.cpp:55-60 | every shared set loses the transaction, and the emptied variables are listed |
| Locks.EraseKeys | src/lockManager.cpp:63-65 | erasing the listed keys keeps exactly the other entries, unchanged |
| Locks.KeysHeldBy | src/lockManager.cpp:68-73 | the collected variables are exactly those write-locked by the transaction, each listed once |
| Locks.LockManager.constructor | src/lockManager.hpp:24-25 | a new lock manager has both tables empty |
| Locks.LockManager.RequestRLock | src/lockManager.cpp:5-22 | the tables become GrantShared of the old ones; the reported holder is the write holder (even the requester itself) or the untouched input |
| Locks.LockManager.RequestWLock | src/lockManager.cpp:24-41 | the tables become GrantExclusive of the old ones and the holder set grows by WriteBlockers |
| Locks.LockManager.PromoteLock | src/lockManager.cpp:44-50 | the tables become Promote of the old ones |
| Locks.LockManager.ReleaseLock | src/lockManager.cpp:52-80 | the tables become Release of the old ones; the result lists each released write lock exactly once |
| Locks.LockManager.ReleaseAllLock | src/lockManager.cpp:82-85 | both tables are empty afterwards |
| Sites.SeedDefaults | src/site.cpp:8-20 | every even variable, and each odd variable the site owns, is set to 10 * i; other entries and fields are unchanged; the site invariant is kept |
| Sites.NewSite | src/site.cpp:6 | a new site is UP, satisfies the site invariant, and stores exactly its even and owned odd variables |
| Sites.SiteReadOutcome | src/site.cpp:22-38 | an unavailable site (DOWN, variable absent, or even and read-restricted) refuses without touching locks; an available one serves the read and grants a shared lock unless x is write-locked, reporting the writer; the writer reads its tentative value, others the committed one; committed values and restrictions never change; the invariant is kept |
| Sites.SiteWriteOutcome | src/site.cpp:40-66 | an unavailable site (DOWN, absent or write-restricted) refuses without requesting a lock; otherwise the write applies exactly when the holders after the request are at most the writer, which then alone holds x's lock and whose value is tentative; otherwise only the holders grow; the invariant is kept |
| Sites.SoleHolder | src/site.cpp:54 | the upgrade test (holder set contains the writer and has size one) means the holder set is exactly the writer |
| Sites.WriteThenRead | src/site.cpp:22-66 | after a successful write at a site, a read there reports the writer as holder, and the writer reads back the value it wrote |
| Sites.SiteAbortOutcome | src/site.cpp:69-76 | after an abort the transaction holds no lock; each variable it write-locked loses its tentative value and write restriction; committed values and everything else are unchanged; the invariant is kept |
| Sites.SiteCommitOutcome | src/site.cpp:78-90 | after a commit the transaction holds no lock; each affected variable with a tentative value becomes committed with it and loses its tentative value and read restriction; every affected variable loses its write restriction; all else is kept; the invariant is kept |
| Sites.SiteFailOutcome | src/site.cpp:92-102 | failing an UP site clears its locks and tentative values, marks it DOWN and records the time; a DOWN site is unchanged; the invariant is kept |
| Sites.SiteRecoverOutcome | src/site.cpp:104-118 | recovering a DOWN site re-seeds the defaults, read-restricts every even variable and marks it UP; an UP site is unchanged; the invariant is kept |
| Sites.RecoveredCopyDiverges | src/site.cpp:78-118 | after fail(2), W(T1,x2,5), recover(2) and T1's commit, site 1 holds x2 = 5 while site 2 holds the re-seeded 20, still read-restricted: replicas need not agree after a commit |
| Sites.SiteRead | src/site.cpp:22-38 | defines a site's read: refusal when DOWN, absent or even and read-restricted; otherwise a shared lock unless write-locked, the write holder reported, and the tentative value for the holder, the committed one for others |
| Sites.SiteWrite | src/site.cpp:40-66 | defines a site's write: refusal when DOWN, absent or write-restricted; otherwise the lock request, the upgrade when the writer alone holds the lock, and the tentative value when no one else holds it |
| Sites.SiteAbort | src/site.cpp:69-76 | defines a site's abort: locks released, tentative values and write restrictions of the released write locks dropped |
| Sites.SiteCommit | src/site.cpp:78-90 | defines a site's commit: affected tentative values installed and their read restrictions cleared, affected write restrictions cleared, locks released |
| Sites.SiteFail | src/site.cpp:92-102 | defines a site's failure: an UP site loses locks and tentative values, becomes DOWN and records the time |
| Sites.SiteRecover | src/site.cpp:104-118 | defines a site's recovery: a DOWN site is re-seeded, read-restricts every even variable and becomes UP |
| Sites.SeedValues | src/site.cpp:10-19 | the two seeding loops set exactly the stored variables to 10 * i and keep every other entry |
| Sites.InstallCommitted | src/site.cpp:80-89 | the commit loop moves each affected tentative value to the committed map, clearing its read restriction, and clears every affected write restriction |
| Sites.InstallMatches | src/site.cpp:78-90 | the results of the commit loop are the fields SiteCommit describes |
| Sites.Site.constructor | src/site.cpp:6 | a new site object is NewSite(id), with a fresh lock manager |
| Sites.Site.Initialize | src/site.cpp:8-20 | the site's state becomes SeedDefaults of the old state |
| Sites.Site.Read | src/site.cpp:22-38 | the state, flag, holder and value are those of SiteRead, and the site invariant is kept |
| Sites.Site.Write | src/site.cpp:40-66 | the state, flag and holders are those of SiteWrite, and the site invariant is kept |
| Sites.Site.Abort | src/site.cpp:69-76 | the state becomes SiteAbort of the old state, and the invariant is kept |
| Sites.Site.Commit | src/site.cpp:78-90 | the state becomes SiteCommit of the old state, and the invariant is kept |
| Sites.Site.Fail | src/site.cpp:92-102 | reports whether the site was UP; the state becomes SiteFail of the old state |
| Sites.Site.Recover | src/site.cpp:104-118 | reports whether the site was DOWN; the state becomes SiteRecover of the old state |
| WaitFor.DfsSpec | src/transactionManager.cpp:8-26 | a search only grows the visited set and the path, and a success leaves at least one more node on the path |
| WaitFor.ChildrenSpec | src/transactionManager.cpp:19-23 | the scan of the waiters only grows the visited set and the path, and a success leaves a longer path |
| WaitFor.Dfs | src/transactionManager.cpp:8-26 | the recursive search returns exactly the verdict, visited set and path DfsSpec describes |
| WaitFor.DfsFails | src/transactionManager.cpp:8-26 | a failed search from a node marks a closed set that contains the node when it has waiters |
| WaitFor.ChildrenFail | src/transactionManager.cpp:19-23 | a failed scan of the waiters marks a closed set containing every waiter that has waiters |
| WaitFor.ClosedAddRoot | src/transactionManager.cpp:18-24 | a root whose waiters all lie in a closed set, or have no waiters, closes the set together with it |
| WaitFor.ClosedUnion | src/transactionManager.cpp:19-23 | the closed sets marked by successive child searches form one closed set |
| WaitFor.NoCycleThrough | src/transactionManager.cpp:8-26 | no directed cycle starts inside a set a failed search marked |
| WaitFor.AcyclicByRank | src/transactionManager.cpp:8-26 | a rank that grows along every edge rules out every directed cycle |
| WaitFor.DfsPath | src/transactionManager.cpp:8-26 | a search from a graph node keeps the given path as a prefix and appends only graph nodes (roots, and waiters taken from the graph's lists) |
| WaitFor.ChildrenPath | src/transactionManager.cpp:19-23 | the scan of a node's waiters keeps the path as a prefix and appends only graph nodes |
| WaitFor.HasCycle | src/transactionManager.cpp:28-37 | every directed cycle of the waits-for graph is reported; a report needs a non-empty graph and leaves a longer path; the given path stays a prefix and every node added to it is a node of the graph |
| WaitFor.NoCycleLeft | src/transactionManager.cpp:28-37 | when no search from any node with waiters finds a cycle, the graph has no directed cycle |
| WaitFor.FirstIndex | src/transactionManager.cpp:94 | the index std::find returns holds the value, and no earlier index does |
| WaitFor.Pool | src/transactionManager.cpp:93-96 | the pool is the part of the path from the first occurrence of its last node, without that last node; it starts with that node when non-empty |
| WaitFor.DiamondReported | src/transactionManager.cpp:8-37 | in the acyclic graph 1->2->3, 1->3, 3->4 the search from 1 reports a cycle with path [1, 2, 3], and the extracted pool is empty |
| Protocol.InitialOk | src/transactionManager.cpp:44-48 | the manager starts at time 0 with the script's operations and ten fresh sites numbered 1..10, and satisfies the manager's invariant |
| Protocol.OpsOfMembers | src/transactionManager.cpp:425-430 | the selected parked operations are exactly those of the given transactions |
| Protocol.OpsNotOfMembers | src/transactionManager.cpp:431-437 | the kept parked operations are exactly those of the other transactions |
| Protocol.OpsSplit | src/transactionManager.cpp:425-437 | selecting and removing by the same transactions loses and duplicates no operation |
| Protocol.OpsNotOfAppend | src/transactionManager.cpp:350-357 | filtering a list extended by one operation extends the filtered list by that operation when it is kept |
| Protocol.Requeue | src/transactionManager.cpp:341-349 | the requeued operations are exactly the parked operations of the listed waiters |
| Protocol.Without | src/transactionManager.cpp:421 | removing a transaction from a waiter list keeps exactly the other waiters |
| Protocol.Waiters | src/transactionManager.cpp:341 | looking up a transaction with no entry in the graph sees an empty list |
| Protocol.AddEdges | src/transactionManager.cpp:220-226 | each holder's list gains the waiter at the end and other lists are unchanged; the graph stays well-formed when the waiter is not a holder |
| Protocol.AddEdge | src/transactionManager.cpp:177 | adding the edges of a single holder extends that holder's list only |
| Protocol.AbortGraph | src/transactionManager.cpp:416-450 | after an abort the graph has no entry for the transaction, no list containing it and no empty list; the other edges are kept; well-formedness is kept |
| Protocol.Visible | src/transactionManager.cpp:487-492 | a site contributes exactly its committed values that are not read-restricted |
| Protocol.LastVisible | src/transactionManager.cpp:485-494 | names the last site whose copy a snapshot may take, or none |
| Protocol.Snapshot | src/transactionManager.cpp:485-494 | a snapshot holds a variable exactly when some site (UP or DOWN) may contribute it, with the value of the last such site |
| Protocol.BeginSpec | src/transactionManager.cpp:111-124 | begin registers a RUNNING record with the operation's id and timestamp, a read-only one with the snapshot, keeps every other record, adds no id but the new one, and keeps the invariant |
| Protocol.FirstReadable | src/transactionManager.cpp:153-159 | the first site able to serve a read: none before it can |
| Protocol.ReadUpToFirst | src/transactionManager.cpp:153-159 | asking the sites in order changes only the first site able to serve the read, and reports its holder |
| Protocol.Wait | src/transactionManager.cpp:174-178 | a blocked transaction becomes WAITING only if it was RUNNING |
| Protocol.ReadOutcome | src/transactionManager.cpp:126-151 | an aborted reader changes nothing; a read-only reader aborts exactly when its snapshot lacks the variable; no read touches the queue, the clock or the uncommitted table |
| Protocol.ReadServed | src/transactionManager.cpp:153-190 | a read-write read changes at most the first serving site; with none it is parked in siteFailedOperations; when another transaction holds the write lock it is parked with an edge from that holder and the reader waits; otherwise the reader is RUNNING and its read time is recorded |
| Protocol.ReadAfterOk | src/transactionManager.cpp:161-190 | recording a read's outcome keeps the manager's invariant |
| Protocol.ReadKeepsOk | src/transactionManager.cpp:126-192 | read keeps the manager's invariant |
| Protocol.WriteUpToFrame | src/transactionManager.cpp:203-208 | trying sites changes only the tried sites, and only their locks and tentative values |
| Protocol.WriteUpToInv | src/transactionManager.cpp:203-208 | trying sites keeps each site's invariant |
| Protocol.WriteUpToApplied | src/transactionManager.cpp:203-208 | only sites able to take the write are reported as applied |
| Protocol.WriteAllOrNothing | src/transactionManager.cpp:201-208 | the final holder set is empty or contains someone other than the writer; when empty, every available copy holds the new value and is reported |
| Protocol.NoneWritable | src/transactionManager.cpp:203-208 | when no site can take the write, no site changes and nothing is reported |
| Protocol.WriteSpec | src/transactionManager.cpp:194-254 | an aborted writer changes only the registry lookup; write never touches the queue or the clock and changes sites only as the site loop does |
| Protocol.WriteParks | src/transactionManager.cpp:209-216 | with no site able to take the write, it waits in siteFailedOperations and nothing else changes |
| Protocol.WriteBlocked | src/transactionManager.cpp:217-234 | with a holder other than the writer, the write is parked, every such holder gains an edge to the writer, and the writer waits if it was running |
| Protocol.WriteApplied | src/transactionManager.cpp:235-252 | an applied write leaves the new tentative value at every available copy, adds the variable to the writer's affected set, and records the write time in its history and in the uncommitted table |
| Protocol.WriteKeepsOk | src/transactionManager.cpp:194-254 | write keeps the manager's invariant |
| Protocol.AbortAt | src/transactionManager.cpp:405-414 | at each site the aborted transaction loses its locks and its written tentative values, and its affected variables lose their write restriction; the site invariant is kept |
| Protocol.AbortSites | src/transactionManager.cpp:405-414 | every site is rolled back for the aborted transaction |
| Protocol.AbortOutcome | src/transactionManager.cpp:404-453 | after abort no site holds the transaction's locks or tentative values; committed values are kept; the graph forgets it; its own and its waiters' parked operations leave the parking list; the waiters' operations go to the queue front in parking order; its record is a default one marked ABORTED |
| Protocol.AbortKeepsOk | src/transactionManager.cpp:404-453 | abort keeps the manager's invariant |
| Protocol.WrittenAt | src/transactionManager.cpp:292-293 | a variable missing from the write history reads as written at time 0 |
| Protocol.EligibleUnderOk | src/transactionManager.cpp:263-303 | under the manager's invariant, commit eligibility means each odd affected variable's owner is UP with a tentative value, and no affected variable is write-restricted or written before any site's last failure |
| Protocol.CommitSites | src/transactionManager.cpp:321-327 | every UP site commits the transaction and every DOWN site is unchanged |
| Protocol.CommitOutcome | src/transactionManager.cpp:256-319 | end commits exactly when the transaction is not aborted, passes the site tests and had no operation waiting for a site, and otherwise aborts it; its operations waiting for a site are always gone |
| Protocol.CommitInstalls | src/transactionManager.cpp:321-359 | a successful commit installs each affected tentative value at every UP site, releases its locks there, clears its uncommitted entries, requeues its waiters' parked operations in front, unparks them, and removes its graph entry |
| Protocol.CommitKeepsOk | src/transactionManager.cpp:256-360 | end keeps the manager's invariant |
| Protocol.FailKeepsOk | src/transactionManager.cpp:362-366 | a failed site is DOWN and the manager's invariant holds |
| Protocol.StaleWrites | src/transactionManager.cpp:374-383 | the restricted variables are exactly the uncommitted ones written no later than the failure and held by the site |
| Protocol.AbortStaleReaders | src/transactionManager.cpp:386-393 | exactly the transactions that read, before the failure, a variable the site holds are marked ABORTED |
| Protocol.RecoverOutcome | src/transactionManager.cpp:368-402 | recovering an UP site changes nothing; recovering a DOWN site makes it UP, write-restricts its stale uncommitted variables, aborts stale readers, and moves every operation waiting for a site to the queue front in order; no other site changes |
| Protocol.RecoverKeepsOk | src/transactionManager.cpp:368-402 | recover keeps the manager's invariant |
| Protocol.TouchAllOutcome | src/transactionManager.cpp:98-99 | looking up the pool adds a default record for each unknown member and keeps every known record |
| Protocol.TouchAllStep | src/transactionManager.cpp:98-99 | looking up one more pool member adds at most that member |
| Protocol.YoungestOutcome | src/transactionManager.cpp:97-106 | the victim has the greatest start time in the pool and is its first member with that time; when nobody started after time 0 it is transaction 0 |
| Protocol.YoungestStep | src/transactionManager.cpp:98-105 | one more pool member replaces the victim exactly when its start time is strictly greater |
| Protocol.RunSnoc | src/transactionManager.cpp:50-83 | a run extended by one step of the loop is still a run |
| Protocol.RunKeepsOk | src/transactionManager.cpp:50-83 | every state of a run that starts under the manager's invariant satisfies it |
| Protocol.RunKeepsOkAt | src/transactionManager.cpp:50-83 | the i-th state of such a run satisfies the manager's invariant |
| Protocol.StepKeepsOk | src/transactionManager.cpp:51-54 | one turn of the loop keeps the manager's invariant |
| Protocol.ApplyKeepsOk | src/transactionManager.cpp:56-82 | every kind of operation keeps the manager's invariant |
| Protocol.DetectKeepsOk | src/transactionManager.cpp:87-109 | a deadlock detection keeps the manager's invariant |
| Protocol.ResolveVictim | src/transactionManager.cpp:93-107 | the victim of a report is transaction 0 (an empty pool, or nobody started after time 0) or a node of the waits-for graph |
| Protocol.EngineOk | src/transactionManager.hpp:1-49 | defines the manager's invariant: well-formed sites, no failure time in the future, a tidy waits-for graph |
| Protocol.Initial | src/transactionManager.cpp:44-54 | defines the starting state: time 0, the script's operations, nothing else recorded, ten fresh sites 1..10 |
| Protocol.ReadUpTo | src/transactionManager.cpp:153-159 | defines the site loop of read: sites asked in order until the first one serves it |
| Protocol.ReadSpec | src/transactionManager.cpp:126-192 | defines read: registry lookup, aborted reader ignored, read-only reader served from its snapshot or aborted, read-write reader sent to the sites |
| Protocol.ReadAfter | src/transactionManager.cpp:161-190 | defines the end of a read-write read: parked for a recovery, parked behind the write holder with an edge, or recorded in the read history |
| Protocol.WriteUpTo | src/transactionManager.cpp:201-208 | defines the site loop of write: every site asked in order with one shared holder set, the applying sites listed |
| Protocol.WriteAfter | src/transactionManager.cpp:209-252 | defines the end of write: parked for a recovery, parked behind the other holders with edges, or recorded as the variable's latest uncommitted write |
| Protocol.AbortSpec | src/transactionManager.cpp:404-453 | defines abort: every site rolled back, then the bookkeeping |
| Protocol.AbortBook | src/transactionManager.cpp:415-450 | defines abort's bookkeeping: default record marked ABORTED, waiters' parked operations requeued in front, own parked operations dropped, graph cleaned |
| Protocol.VarAvailable | src/transactionManager.cpp:265-283 | defines commit's per-variable test: no DOWN site holds a tentative even variable; an odd variable's owner is UP and holds a tentative value |
| Protocol.SiteAllows | src/transactionManager.cpp:285-302 | defines commit's per-site test: no affected variable write-restricted or written before the failure, no read while the failure lay ahead |
| Protocol.Eligible | src/transactionManager.cpp:263-302 | defines commit's verdict before the parked operations: every affected variable available and every site allowing |
| Protocol.CommitSpec | src/transactionManager.cpp:256-319 | defines end: an aborted transaction is aborted again; otherwise its operations waiting for a site are dropped and the verdict decides |
| Protocol.CommitFinish | src/transactionManager.cpp:313-359 | defines the end of commit: abort on a negative verdict, otherwise install at UP sites and settle the bookkeeping |
| Protocol.CommitBook | src/transactionManager.cpp:328-359 | defines commit's bookkeeping: COMMITED record, affected variables no longer uncommitted, waiters requeued, graph entry erased |
| Protocol.FailSpec | src/transactionManager.cpp:362-366 | defines fail: the named site fails at the current time |
| Protocol.RecoverSpec | src/transactionManager.cpp:368-402 | defines recover: an UP site is left alone; a DOWN site recovers, then the bookkeeping |
| Protocol.RecoverBook | src/transactionManager.cpp:374-401 | defines recover's bookkeeping: stale uncommitted writes write-restricted, stale readers marked ABORTED, operations waiting for a site requeued |
| Protocol.TouchAll | src/transactionManager.cpp:98-99 | defines the registry after looking up every pool member |
| Protocol.Youngest | src/transactionManager.cpp:97-106 | defines the victim loop: a member replaces the best so far only with a strictly greater start time |
| Protocol.Resolve | src/transactionManager.cpp:93-107 | defines a detection's effect once a path is reported: pool extracted, members looked up, youngest aborted |
| Protocol.Detects | src/transactionManager.cpp:87-109 | defines detectDeadLock: no change when no cycle exists, or the effect of a report from a non-empty graph with a path of graph nodes |
| Protocol.Step | src/transactionManager.cpp:51-56 | defines one loop turn: the front operation is taken, the clock advances, the operation runs |
| Protocol.Apply | src/transactionManager.cpp:56-82 | defines the dispatch on the action, with detection after READ and WRITE and no change on DUMP |
| Protocol.Run | src/transactionManager.cpp:50-83 | defines a run of the loop: each state reached from the previous by one step |
| Protocol.ResolveKeepsOk | src/transactionManager.cpp:93-107 | aborting the chosen victim keeps the manager's invariant |
| Loops.PushOpsFront | src/transactionManager.cpp:425-430 | the reverse push-front loop leaves the selected parked operations, in parking order, in front of the queue |
| Loops.RequeueWaiters | src/transactionManager.cpp:341-349 | the nested reverse loops leave each waiter's parked operations in front of the queue, grouped in waiter order |
| Loops.RemoveOpsOf | src/transactionManager.cpp:350-357 | remove_if followed by erase keeps the other operations in order |
| Loops.DropOpsOf | src/transactionManager.cpp:306-314 | the erase loop keeps the other operations in order and reports whether the transaction had any |
| Loops.PushAllFront | src/transactionManager.cpp:396-400 | the reverse push-front loop puts the whole list in front of the queue in its order |
| Loops.AddHolders | src/transactionManager.cpp:220-226 | every holder except the writer gains an edge to the writer |
| Loops.RemoveWaiter | src/transactionManager.cpp:420-422 | every waiter list loses the transaction and no entry is added or removed |
| Loops.PruneEmpty | src/transactionManager.cpp:444-450 | exactly the empty waiter lists are dropped |
| Loops.SettleCommitted | src/transactionManager.cpp:328-359 | the bookkeeping of a successful commit is CommitBook's: COMMITED record, uncommitted entries gone, waiters requeued and unparked, graph entry erased |
| Loops.ForgetAborted | src/transactionManager.cpp:415-450 | the bookkeeping of abort is AbortBook's: ABORTED default record, pruned graph, waiters requeued, own and waiters' operations unparked |
| Loops.ForgetAll | src/transactionManager.cpp:333-336 | exactly the affected variables leave the uncommitted table |
| Loops.ChooseVictim | src/transactionManager.cpp:97-106 | the loop chooses the victim Youngest describes and leaves the registry with every pool member looked up |
| Loops.NoDownCopy | src/transactionManager.cpp:268-275 | a replicated variable passes exactly when no DOWN site holds a tentative value of it |
| Loops.AffectedAvailable | src/transactionManager.cpp:265-284 | the first loop of commit passes exactly when every affected variable is available |
| Loops.SiteAllowsCheck | src/transactionManager.cpp:287-302 | the per-site loops pass exactly when no affected variable is write-restricted or written before the failure, and no read can precede a failure in the future |
| Loops.CheckEligible | src/transactionManager.cpp:263-303 | the eligibility loops of commit compute exactly Eligible |
| Loops.RestrictStale | src/transactionManager.cpp:374-383 | the recovered site's write restrictions grow by exactly the stale uncommitted writes |
| Loops.HasReadBefore | src/transactionManager.cpp:387-392 | reports exactly whether the transaction read a variable held by the site before the failure |
| Loops.MarkStaleReaders | src/transactionManager.cpp:386-393 | the registry loop marks exactly the stale readers ABORTED |
| Loops.Overlay | src/transactionManager.cpp:487-492 | one site's visible committed values overwrite the copy |
| Manager.TransactionManager.constructor | src/transactionManager.cpp:41-48 | the new manager is the initial state over the script, with ten fresh sites, and satisfies its invariant |
| Manager.TransactionManager.NewSites | src/transactionManager.cpp:46-48 | ten fresh, distinct sites numbered 1..10, each with its own lock manager |
| Manager.TransactionManager.ReadFirstSite | src/transactionManager.cpp:153-159 | the short-circuit site loop leaves the sites, flag and holder ReadUpTo describes |
| Manager.TransactionManager.ReadSite | src/transactionManager.cpp:154-158 | asking site i changes that site only, as one step of the loop |
| Manager.TransactionManager.WriteSite | src/transactionManager.cpp:204-207 | asking site i changes that site only, as SiteWrite describes |
| Manager.TransactionManager.WriteAllSites | src/transactionManager.cpp:201-208 | the site loop of write leaves the sites, holders and applied sites WriteUpTo describes |
| Manager.TransactionManager.CommitAllSites | src/transactionManager.cpp:321-327 | the site loop of commit leaves the sites CommitSites describes |
| Manager.TransactionManager.AbortAllSites | src/transactionManager.cpp:405-414 | the site loop of abort leaves the sites AbortSites describes |
| Manager.TransactionManager.CopyCommittedValue | src/transactionManager.cpp:485-494 | the copied values are the Snapshot of the sites |
| Manager.TransactionManager.Begin | src/transactionManager.cpp:111-124 | begin leaves the state BeginSpec describes and keeps the invariant |
| Manager.TransactionManager.Read | src/transactionManager.cpp:126-192 | read leaves the state ReadSpec describes and keeps the invariant |
| Manager.TransactionManager.RecordRead | src/transactionManager.cpp:161-190 | the three read outcomes leave the state ReadAfter describes |
| Manager.TransactionManager.Write | src/transactionManager.cpp:194-254 | write leaves the state WriteSpec describes and keeps the invariant |
| Manager.TransactionManager.RecordWrite | src/transactionManager.cpp:209-252 | the three write outcomes leave the state WriteAfter describes |
| Manager.TransactionManager.Abort | src/transactionManager.cpp:404-453 | abort leaves the state AbortSpec describes and keeps the invariant |
| Manager.TransactionManager.DropAborted | src/transactionManager.cpp:415-450 | the bookkeeping of abort leaves the state AbortBook describes |
| Manager.TransactionManager.Commit | src/transactionManager.cpp:256-360 | end leaves the state CommitSpec describes and keeps the invariant |
| Manager.TransactionManager.FinishCommit | src/transactionManager.cpp:316-359 | the end of commit leaves the state CommitFinish describes |
| Manager.TransactionManager.Fail | src/transactionManager.cpp:362-366 | fail leaves the state FailSpec describes and keeps the invariant |
| Manager.TransactionManager.Recover | src/transactionManager.cpp:368-402 | recover leaves the state RecoverSpec describes and keeps the invariant |
| Manager.TransactionManager.AfterRecovery | src/transactionManager.cpp:372-400 | the part of recover after the site is UP leaves the state RecoverBook describes |
| Manager.TransactionManager.DetectDeadLock | src/transactionManager.cpp:87-109 | any directed cycle is detected; with none reported nothing changes; a report comes only from a non-empty graph, with a path of graph nodes, and aborts the youngest pool member; the invariant is kept |
| Manager.TransactionManager.Simulate | src/transactionManager.cpp:44-85 | the loop produces a run of steps from the initial state to the final one, keeps the invariant, and stops only on an empty queue, exhausted fuel or a FAIL/RECOVER naming no site |
| Manager.TransactionManager.Execute | src/transactionManager.cpp:51-54 | one turn of the loop is one Step: pop the head, advance the clock, run it |
| Manager.TransactionManager.Dispatch | src/transactionManager.cpp:56-82 | each action runs its operation, and READ and WRITE are followed by a deadlock detection |
| Parser.Decimal | src/ioUtil.cpp:17-19 | a digit string denotes a non-negative number |
| Parser.RunEnd | src/ioUtil.cpp:17 | the digit run starting at an index ends at the first non-digit or the end of the line |
| Parser.NumberAfter | src/ioUtil.cpp:16-19 | the number after a marker is non-negative |
| Parser.Find | src/ioUtil.cpp:15 | find returns the first index holding the character |
| Parser.ScanNumber | src/ioUtil.cpp:16-19 | the digit loop accumulates the decimal number of the run after the marker and stops at its end |
| Parser.GetReadOperation | src/ioUtil.cpp:11-30 | the read parser yields ReadOp of the line |
| Parser.GetWriteOperation | src/ioUtil.cpp:35-60 | the write parser yields WriteOp of the line |
| Parser.GetTxOperation | src/ioUtil.cpp:65-110 | the begin, beginRO and end parsers yield the transaction number after the first 'T' |
| Parser.GetSiteOperation | src/ioUtil.cpp:124-153 | the fail and recover parsers yield the site number after the first '(' |
| Parser.LineOp | src/ioUtil.cpp:168-201 | a kept line yields an operation exactly when it starts with R, W, e, d, r or f, or with b and its first '(' at index 5 or 7 |
| Parser.KeptLines | src/ioUtil.cpp:163-165 | only lines starting with a letter are kept, in order |
| Parser.ParseOk | src/ioUtil.cpp:162-205 | reading a script fails exactly when some kept line has an unknown form |
| Parser.ParseStamps | src/ioUtil.cpp:160-204 | a successful read yields one operation per kept line, in order, stamped 1, 2, 3, ... |
| Parser.FatalStays | src/ioUtil.cpp:198-201 | once a prefix of the script is fatal, so is the whole script |
| Parser.StampsIncrease | src/ioUtil.cpp:160-204 | timestamps are positive and strictly increasing |
| Parser.ParseLine | src/ioUtil.cpp:168-202 | the dispatch on the first character yields LineOp of the line |
| Parser.ParseScript | src/ioUtil.cpp:157-206 | the script loop yields Parse of the lines |
| Parser.ShowDecimal | src/ioUtil.cpp:17-19 | the digits of n read back as n |
| Parser.ReadRoundTrip | src/ioUtil.cpp:11-30 | `R(T<a>,x<b>)` parses to a READ of transaction a on variable b |
| Parser.WriteRoundTrip | src/ioUtil.cpp:35-60 | `W(T<a>,x<b>,<c>)` parses to a WRITE of value c by transaction a on variable b |
| Parser.FailRoundTrip | src/ioUtil.cpp:124-136 | `fail(<n>)` parses to a FAIL of site n |
| Parser.RecoverRoundTrip | src/ioUtil.cpp:141-153 | `recover(<n>)` parses to a RECOVER of site n |
| Parser.BeginRoundTrip | src/ioUtil.cpp:175-178 | `begin(T<a>)` parses to a BEGIN of transaction a |
| Parser.BeginRORoundTrip | src/ioUtil.cpp:179-180 | `beginRO(T<a>)` parses to a BEGINRO of transaction a |
| Parser.ReadOp | src/ioUtil.cpp:11-30 | defines the READ operation of a line: the number after the first 'T' and the number after the first 'x' |
| Parser.WriteOp | src/ioUtil.cpp:35-60 | defines the WRITE operation of a line: transaction, variable, and the value read from one character after the variable's digits |
| Parser.TxOp | src/ioUtil.cpp:65-110 | defines begin, beginRO and end lines: the number after the first 'T' |
| Parser.SiteOp | src/ioUtil.cpp:124-153 | defines fail and recover lines: the number after the first '(' |
| Parser.Kept | src/ioUtil.cpp:163-165 | defines which lines are read: those starting with a letter |
| Parser.Parse | src/ioUtil.cpp:157-206 | defines the script: kept lines in order, each stamped with its ordinal, fatal at the first unknown line |

## Left out

- Console output: every `cout` message, `dump`, `dumpDebug`, the lock and site dumps and the `operator<<` printers. The value a successful read prints is computed by `Site.Read` but not carried further.
- File input: the script is a sequence of lines rather than a file read with `getline`. `exit(1)` on an unknown line becomes the `Fatal` result. src/repcrec.cpp is not part of this model.
- Parsers: `int` accumulators are unbounded here, so 32-bit overflow on very long digit runs is not modelled. A line missing the character a parser searches for ('T', 'x' or '(') is excluded by a precondition (`Parsable`) by choice. The program reads 0 there: `find` returns `npos`, `++idx` wraps it to 0, and `line[0]` is the letter that chose the parser, so the digit loop stops at once (`R(1,x2)` is a READ of transaction 0 on x2). The `W` parser also requires a character after the variable's digits; without one the program reads one past the end of the line, which is undefined.
- Indeterminate defaults: a default-constructed `Transaction` leaves its id, start time, read-only flag and status uninitialised. The model fixes them at 0, 0, false and `Unset`. A site's `failedTime` starts at 0.
- Manager.TransactionManager.Simulate: it runs for at most `fuel` operations, because the program's loop need not terminate (requeueing can repeat forever). It also stops before a FAIL or RECOVER naming no site 1..10, where the program indexes out of range.
- Manager.TransactionManager.constructor: the ten sites are built in the constructor. The program builds them at the start of `simulate`, and nothing happens in between.
- Hash-map and hash-set iteration order is unspecified. Loops over maps and sets pick elements arbitrarily, and no property depends on the order. Two consequences follow:
  - `hasCycle` may report any cycle;
  - `releaseLock` returns its variables in an unspecified order.
- `Sites.Site.Abort`: the per-variable erase loop of `TransactionManager::abort` is applied as one set difference on each site's write restrictions, inside `AbortAllSites`.
- The registry record of an aborted transaction is erased and then re-created by default insertion (`src/transactionManager.cpp:415,439`). The model writes the final record (a default record marked ABORTED) in one step.
- Default insertion of `writeHistory[idx]` during commit's checks is not kept in the registry. `WrittenAt` reads a missing entry as 0, which is what the check sees.
- `%` is applied only to the odd variable indices 1..19 that the program stores, where C++'s truncating `%` and Dafny's Euclidean `%` agree.
- WaitFor.HasCycle: it promises that every real cycle is reported and that a report comes from a non-empty graph with a path of graph nodes. Which cycle is reported, and the exact path, depend on iteration order. `DiamondReported` shows that a report need not mean a cycle.
- Replica convergence is not a property of this program, so the model does not state it. A copy that was DOWN during a write keeps its re-seeded value after the writer commits, while the other UP copies take the new value (`RecoveredCopyDiverges`, src/site.cpp:78-118, src/transactionManager.cpp:321-327). That copy stays read-restricted, so no read returns it.
- An acyclic waits-for graph after deadlock resolution is not a property of this program either. Resolution aborts one pool member, so a cycle that does not pass through the victim survives it, and a report may come with no cycle at all (`DiamondReported`).
