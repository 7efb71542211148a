/**
 * The transaction manager as the program runs it: a class whose fields are
 * the clock, the operation queue, the registry, the parking lists, the
 * wait-for graph and the uncommitted-variable times, over ten Site objects.
 * Each method is proved to leave the state that the corresponding function
 * of module Protocol describes, and to keep the manager's invariant.
 */
module Manager {

  import opened Records
  import opened Sites
  import opened WaitFor
  import opened Protocol
  import opened Loops

  class TransactionManager {
    var time: int
    var operations: seq<Operation>
    var idToTransaction: map<int, Transaction>
    var blockedOperations: seq<Operation>
    var siteFailedOperations: seq<Operation>
    var waitForGraph: Graph
    var uncommitedVariable: map<int, int>
    const sites: seq<Site>
    /** The site objects and their lock managers. */
    ghost const Repr: set<object>

    /** Ten distinct sites numbered 1..10, each with its own lock manager. */
    ghost predicate Structure() {
      && |sites| == SiteCount
      && this !in Repr
      && (forall k :: 0 <= k < SiteCount ==> sites[k].id == k + 1)
      && (forall k :: 0 <= k < SiteCount ==> sites[k] in Repr && sites[k].lockManager in Repr)
      && (forall j, k :: 0 <= j < SiteCount && 0 <= k < SiteCount && j != k ==>
            sites[j] != sites[k] && sites[j].lockManager != sites[k].lockManager)
    }

    /** The states of the ten sites, in order. */
    function SiteModels(): (ms: seq<SiteState>)
      reads Repr
      requires Structure()
      ensures |ms| == SiteCount && forall k :: 0 <= k < SiteCount ==> ms[k] == sites[k].Model()
    {
      seq(SiteCount, k requires 0 <= k < SiteCount reads Repr => sites[k].Model())
    }

    /** The whole state as a value of module Protocol. */
    ghost function Engine(): Engine
      reads this, Repr
      requires Structure()
    {
      Protocol.Engine(time, operations, idToTransaction, blockedOperations, siteFailedOperations,
                      waitForGraph, uncommitedVariable, SiteModels())
    }

    ghost predicate Valid()
      reads this, Repr
    {
      Structure() && EngineOk(Engine())
    }

    /** The manager over `ops`, with its ten sites already built. */
    constructor (ops: seq<Operation>)
      ensures Valid() && Engine() == Initial(ops)
    {
      time := 0;
      operations := ops;
      idToTransaction := map[];
      blockedOperations, siteFailedOperations := [], [];
      waitForGraph := map[];
      uncommitedVariable := map[];
      var ss, repr := NewSites();
      sites := ss;
      Repr := repr;
      new;
      InitialOk(ops);
      assert forall k :: 0 <= k < SiteCount ==> SiteModels()[k] == Initial(ops).sites[k];
      assert SiteModels() == Initial(ops).sites;
    }

    /** The site initialisation loop of `simulate`: sites 1..10 in order. */
    static method NewSites() returns (ss: seq<Site>, repr: set<object>)
      ensures |ss| == SiteCount && forall o :: o in repr ==> fresh(o)
      ensures forall k :: 0 <= k < SiteCount ==> ss[k] in repr && ss[k].lockManager in repr
      ensures forall k :: 0 <= k < SiteCount ==> ss[k].id == k + 1 && ss[k].Model() == NewSite(k + 1)
      ensures forall j, k :: 0 <= j < SiteCount && 0 <= k < SiteCount && j != k ==>
        ss[j] != ss[k] && ss[j].lockManager != ss[k].lockManager
    {
      ss, repr := [], {};
      var i := 0;
      while i < SiteCount
        invariant 0 <= i <= SiteCount && |ss| == i
        invariant forall o :: o in repr ==> fresh(o)
        invariant forall k :: 0 <= k < i ==> ss[k] in repr && ss[k].lockManager in repr
        invariant forall k :: 0 <= k < i ==> ss[k].id == k + 1 && ss[k].Model() == NewSite(k + 1)
        invariant forall j, k :: 0 <= j < k < i ==> ss[j].lockManager != ss[k].lockManager
      {
        var s := new Site(i + 1);
        ss, repr := ss + [s], repr + {s, s.lockManager};
        i := i + 1;
      }
      assert forall j, k :: 0 <= k < j < SiteCount ==> ss[k].lockManager != ss[j].lockManager;
    }

    // -------------------------------------------------------------------
    // The loops over the sites
    // -------------------------------------------------------------------

    /**
     * The site loop of `read`: sites are asked in order until one serves
     * the read; the lock holder it reports comes back.
     */
    method ReadFirstSite(tx: int, x: int) returns (isRead: bool, holder: int)
      requires Structure() && SitesOk(SiteModels())
      modifies Repr
      ensures ReadRound(SiteModels(), isRead, holder) == ReadUpTo(old(SiteModels()), tx, x, SiteCount)
    {
      ghost var ss := SiteModels();
      isRead, holder := false, -1;
      var i := 0;
      while i < SiteCount
        invariant 0 <= i <= SiteCount
        invariant ReadRound(SiteModels(), isRead, holder) == ReadUpTo(ss, tx, x, i)
        invariant SitesOk(SiteModels())
      {
        if !isRead {
          isRead, holder := ReadSite(i, tx, x, holder);
        }
        i := i + 1;
      }
    }

    /** `sites[i]->read(...)` seen from the manager: only site i changes. */
    method ReadSite(i: nat, tx: int, x: int, holder: int) returns (ok: bool, holder': int)
      requires Structure() && SitesOk(SiteModels()) && i < SiteCount
      modifies sites[i], sites[i].lockManager
      ensures ReadRound(SiteModels(), ok, holder') == ReadNext(ReadRound(old(SiteModels()), false, holder), tx, x, i)
      ensures SitesOk(SiteModels())
    {
      ghost var prev := SiteModels();
      ghost var rd := SiteRead(prev[i], tx, x, holder);
      var readVal;
      ok, holder', readVal := sites[i].Read(tx, x, holder);
      assert forall k :: 0 <= k < SiteCount && k != i ==> SiteModels()[k] == prev[k];
      assert SiteModels() == prev[i := rd.site];
    }

    /** `sites[i]->write(...)` seen from the manager: only site i changes. */
    method WriteSite(i: nat, tx: int, x: int, v: int, holders: set<int>) returns (ok: bool, holders': set<int>)
      requires Structure() && SitesOk(SiteModels()) && i < SiteCount
      modifies sites[i], sites[i].lockManager
      ensures var w := SiteWrite(old(SiteModels())[i], tx, x, v, holders);
        SiteModels() == old(SiteModels())[i := w.site] && ok == w.ok && holders' == w.holders
      ensures SitesOk(SiteModels())
    {
      ghost var prev := SiteModels();
      ghost var w := SiteWrite(prev[i], tx, x, v, holders);
      ok, holders' := sites[i].Write(tx, x, v, holders);
      assert forall k :: 0 <= k < SiteCount && k != i ==> SiteModels()[k] == prev[k];
      assert SiteModels() == prev[i := w.site];
    }

    /**
     * The site loop of `write`: every site is asked in order, sharing one
     * holder set; the numbers of the sites that applied it come back.
     */
    method WriteAllSites(tx: int, x: int, v: int) returns (holders: set<int>, applied: seq<int>)
      requires Structure() && SitesOk(SiteModels())
      modifies Repr
      ensures var w := WriteUpTo(old(SiteModels()), tx, x, v, SiteCount);
        SiteModels() == w.sites && holders == w.holders && applied == w.applied
    {
      ghost var ss := SiteModels();
      holders, applied := {}, [];
      var i := 0;
      while i < SiteCount
        invariant 0 <= i <= SiteCount
        invariant var w := WriteUpTo(ss, tx, x, v, i);
          SiteModels() == w.sites && holders == w.holders && applied == w.applied
        invariant SitesOk(SiteModels())
      {
        var ok;
        ok, holders := WriteSite(i, tx, x, v, holders);
        if ok {
          applied := applied + [i + 1];
        }
        i := i + 1;
      }
    }

    /** The site loop of a successful `commit`: every UP site installs the values. */
    method CommitAllSites(tx: int, affected: set<int>)
      requires Structure() && SitesOk(SiteModels())
      modifies Repr
      ensures SiteModels() == CommitSites(old(SiteModels()), tx, affected)
    {
      ghost var ss := SiteModels();
      ghost var want := CommitSites(ss, tx, affected);
      var i := 0;
      while i < SiteCount
        invariant 0 <= i <= SiteCount
        invariant forall k :: 0 <= k < i ==> SiteModels()[k] == want[k]
        invariant forall k :: i <= k < SiteCount ==> SiteModels()[k] == ss[k]
      {
        if sites[i].siteStatus != Down {
          sites[i].Commit(tx, affected);
        }
        i := i + 1;
      }
    }

    /**
     * The site loop of `abort`: each site aborts t, then every variable t
     * is recorded as having written loses its write restriction there.
     */
    method AbortAllSites(t: int, affected: set<int>)
      requires Structure() && SitesOk(SiteModels())
      modifies Repr
      ensures SiteModels() == AbortSites(old(SiteModels()), t, affected)
    {
      ghost var ss := SiteModels();
      ghost var want := AbortSites(ss, t, affected);
      var i := 0;
      while i < SiteCount
        invariant 0 <= i <= SiteCount
        invariant forall k :: 0 <= k < i ==> SiteModels()[k] == want[k]
        invariant forall k :: i <= k < SiteCount ==> SiteModels()[k] == ss[k]
      {
        sites[i].Abort(t);
        sites[i].restrictedWriteVariable := sites[i].restrictedWriteVariable - affected;
        i := i + 1;
      }
    }

    /**
     * `copyCommitedValue`: every site in order, up or down, contributes
     * its committed values that are not read-restricted.
     */
    method CopyCommittedValue() returns (copy: map<int, int>)
      requires Structure()
      ensures copy == Snapshot(SiteModels())
    {
      ghost var ss := SiteModels();
      copy := map[];
      var i := 0;
      while i < SiteCount
        invariant 0 <= i <= SiteCount
        invariant copy == Snapshot(ss[..i])
      {
        assert ss[..i + 1][..i] == ss[..i];
        copy := Overlay(copy, sites[i].Model());
        i := i + 1;
      }
      assert ss[..SiteCount] == ss;
    }

    // -------------------------------------------------------------------
    // The operations
    // -------------------------------------------------------------------

    /** `begin`: registers a RUNNING transaction; a read-only one takes a snapshot. */
    method Begin(op: Operation, isReadOnly: bool)
      requires Valid()
      modifies this
      ensures Valid() && Engine() == BeginSpec(old(Engine()), op, isReadOnly)
    {
      var transaction := NewTransaction(op.transactionId, op.timeStamp, isReadOnly);
      if isReadOnly {
        var copy := CopyCommittedValue();
        transaction := transaction.(snapshot := copy);
      }
      idToTransaction := idToTransaction[transaction.id := transaction];
    }

    /** `read`. */
    method Read(op: Operation)
      requires Valid()
      modifies this, Repr
      ensures Engine() == ReadSpec(old(Engine()), op) && Valid()
    {
      ghost var e0 := Engine();
      var tx, x := op.transactionId, op.varIdx;
      if tx !in idToTransaction {
        idToTransaction := idToTransaction[tx := DefaultTransaction];
      }
      var t := idToTransaction[tx];
      ghost var e1 := e0.(txns := Touch(e0.txns, tx));
      assert Engine() == e1;
      if t.status == Aborted {
      } else if t.isReadOnly {
        if x !in t.snapshot {
          idToTransaction := idToTransaction[tx := t.(status := Aborted)];
        }
        assert SiteModels() == e0.sites;
      } else {
        var isRead, lockHolder := ReadFirstSite(tx, x);
        ghost var rr := ReadUpTo(e0.sites, tx, x, SiteCount);
        assert Engine() == e1.(sites := rr.sites) && isRead == rr.isRead && lockHolder == rr.holder;
        RecordRead(op, isRead, lockHolder);
      }
      ReadKeepsOk(e0, op);
    }

    /** The three outcomes of a read-write `read` once the sites have been asked. */
    method RecordRead(op: Operation, isRead: bool, lockHolder: int)
      requires Structure() && op.transactionId in idToTransaction
      modifies this
      ensures Engine() == ReadAfter(old(Engine()), op, isRead, lockHolder)
    {
      ghost var ss := SiteModels();
      var tx := op.transactionId;
      var t := idToTransaction[tx];
      if !isRead {
        siteFailedOperations := siteFailedOperations + [op];
      } else if lockHolder != -1 && lockHolder != tx {
        AddEdge(waitForGraph, lockHolder, tx);
        blockedOperations := blockedOperations + [op];
        waitForGraph := waitForGraph[lockHolder := Waiters(waitForGraph, lockHolder) + [tx]];
        if t.status == Running {
          idToTransaction := idToTransaction[tx := t.(status := Waiting)];
        } else {
          assert idToTransaction == idToTransaction[tx := Wait(t)];
        }
        assert idToTransaction == old(idToTransaction)[tx := Wait(t)];
      } else {
        idToTransaction := idToTransaction[tx := t.(status := Running, readHistory := t.readHistory[op.varIdx := time])];
      }
      assert SiteModels() == ss;
    }

    /** `write`. */
    method Write(op: Operation)
      requires Valid()
      modifies this, Repr
      ensures Engine() == WriteSpec(old(Engine()), op) && Valid()
    {
      ghost var e0 := Engine();
      var tx, x, v := op.transactionId, op.varIdx, op.val;
      if tx !in idToTransaction {
        idToTransaction := idToTransaction[tx := DefaultTransaction];
      }
      if idToTransaction[tx].status != Aborted {
        var lockHolders, affectedSiteIndexes := WriteAllSites(tx, x, v);
        RecordWrite(op, lockHolders, affectedSiteIndexes);
      }
      WriteKeepsOk(e0, op);
    }

    /** The three outcomes of `write` once every site has been asked. */
    method RecordWrite(op: Operation, lockHolders: set<int>, affectedSiteIndexes: seq<int>)
      requires Structure() && op.transactionId in idToTransaction
      modifies this
      ensures Engine() == WriteAfter(old(Engine()), op, lockHolders, affectedSiteIndexes)
    {
      var tx, x := op.transactionId, op.varIdx;
      var t := idToTransaction[tx];
      if affectedSiteIndexes == [] && lockHolders == {} {
        siteFailedOperations := siteFailedOperations + [op];
      } else if lockHolders != {} {
        blockedOperations := blockedOperations + [op];
        waitForGraph := AddHolders(waitForGraph, lockHolders, tx);
        if t.status == Running {
          idToTransaction := idToTransaction[tx := t.(status := Waiting)];
        } else {
          assert idToTransaction == idToTransaction[tx := Wait(t)];
        }
        assert idToTransaction == old(idToTransaction)[tx := Wait(t)];
      } else {
        idToTransaction := idToTransaction[tx := t.(status := Running, affected := t.affected + {x},
                                                   writeHistory := t.writeHistory[x := time])];
        uncommitedVariable := uncommitedVariable[x := time];
      }
    }

    /** `abort`. */
    method Abort(transactionToAbort: int)
      requires Valid()
      modifies this, Repr
      ensures Engine() == AbortSpec(old(Engine()), transactionToAbort) && Valid()
    {
      ghost var e0 := Engine();
      var t := transactionToAbort;
      if t !in idToTransaction {
        idToTransaction := idToTransaction[t := DefaultTransaction];
      }
      AbortAllSites(t, idToTransaction[t].affected);
      DropAborted(t);
      assert idToTransaction == e0.txns[t := DefaultTransaction.(status := Aborted)];
      AbortKeepsOk(e0, t);
    }

    /** The bookkeeping half of `abort`: registry, wait-for graph and queues. */
    method DropAborted(t: int)
      requires Structure()
      modifies this
      ensures Engine() == AbortBook(old(Engine()), t)
    {
      idToTransaction, waitForGraph, blockedOperations, operations :=
        ForgetAborted(idToTransaction, waitForGraph, blockedOperations, operations, t);
    }

    /** `commit`, the END operation. */
    method Commit(op: Operation)
      requires Valid()
      modifies this, Repr
      ensures Engine() == CommitSpec(old(Engine()), op.transactionId) && Valid()
    {
      ghost var e0 := Engine();
      var tx := op.transactionId;
      if tx !in idToTransaction {
        idToTransaction := idToTransaction[tx := DefaultTransaction];
      }
      var t := idToTransaction[tx];
      if t.status == Aborted {
        Abort(tx);
      } else {
        var ableToCommit := CheckEligible(SiteModels(), t, time);
        var kept, found := DropOpsOf(siteFailedOperations, tx);
        siteFailedOperations := kept;
        if found {
          ableToCommit := false;
        }
        assert SiteModels() == e0.sites;
        ghost var e2 := Engine();
        assert e2 == e0.(txns := Touch(e0.txns, tx), siteFailed := OpsNotOf(e0.siteFailed, {tx}));
        assert ableToCommit == (Eligible(e0.sites, t, e0.time) && OpsOf(e0.siteFailed, {tx}) == []);
        FinishCommit(tx, ableToCommit);
        assert Engine() == CommitFinish(e2, tx, ableToCommit);
      }
      CommitKeepsOk(e0, tx);
    }

    /** The end of `commit` once the verdict is known. */
    method FinishCommit(tx: int, ableToCommit: bool)
      requires Valid() && tx in idToTransaction
      modifies this, Repr
      ensures Engine() == CommitFinish(old(Engine()), tx, ableToCommit)
    {
      if !ableToCommit {
        Abort(tx);
      } else {
        CommitAllSites(tx, idToTransaction[tx].affected);
        idToTransaction, uncommitedVariable, waitForGraph, blockedOperations, operations :=
          SettleCommitted(idToTransaction, uncommitedVariable, waitForGraph, blockedOperations, operations, tx);
      }
    }

    /** `fail`: the named site fails at the current time. */
    method Fail(op: Operation)
      requires Valid() && 1 <= op.siteId <= SiteCount
      modifies this, Repr
      ensures Engine() == FailSpec(old(Engine()), op.siteId) && Valid()
    {
      ghost var e0 := Engine();
      var _ := sites[op.siteId - 1].Fail(time);
      assert forall k :: 0 <= k < SiteCount && k != op.siteId - 1 ==> SiteModels()[k] == e0.sites[k];
      FailKeepsOk(e0, op.siteId);
    }

    /** `recover`. */
    method Recover(op: Operation)
      requires Valid() && 1 <= op.siteId <= SiteCount
      modifies this, Repr
      ensures Engine() == RecoverSpec(old(Engine()), op.siteId) && Valid()
    {
      ghost var e0 := Engine();
      var site := sites[op.siteId - 1];
      var recovered := site.Recover();
      assert forall k :: 0 <= k < SiteCount && k != op.siteId - 1 ==> SiteModels()[k] == e0.sites[k];
      ghost var s0 := e0.sites[op.siteId - 1];
      assert SiteModels() == if s0.status == Down then e0.sites[op.siteId - 1 := SiteRecover(s0)] else e0.sites;
      if recovered {
        assert Engine() == e0.(sites := e0.sites[op.siteId - 1 := SiteRecover(s0)]);
        AfterRecovery(op.siteId);
      } else {
        assert Engine() == e0;
      }
      RecoverKeepsOk(e0, op.siteId);
    }

    /** The part of `recover` after site n is back UP. */
    method AfterRecovery(n: int)
      requires Structure() && 1 <= n <= SiteCount
      modifies this, sites[n - 1]
      ensures Engine() == RecoverBook(old(Engine()), n)
    {
      ghost var e0 := Engine();
      ghost var rs := e0.sites[n - 1];
      var site := sites[n - 1];
      site.restrictedWriteVariable := RestrictStale(site.restrictedWriteVariable, uncommitedVariable, site.Model());
      ghost var rs' := rs.(writeRestricted := rs.writeRestricted + StaleWrites(e0.uncommitted, rs));
      assert site.Model() == rs';
      assert forall k :: 0 <= k < SiteCount && k != n - 1 ==> SiteModels()[k] == e0.sites[k];
      assert SiteModels() == e0.sites[n - 1 := rs'];
      idToTransaction := MarkStaleReaders(idToTransaction, site.Model());
      operations := PushAllFront(siteFailedOperations, operations);
      siteFailedOperations := [];
    }

    /**
     * `detectDeadLock`: when the search reports a cycle, the youngest
     * transaction of the extracted pool is aborted. A real cycle is always
     * reported; nothing changes when none is.
     */
    method DetectDeadLock() returns (found: bool)
      requires Valid()
      modifies this, Repr
      ensures Detects(old(Engine()), Engine()) && Valid()
      ensures HasDirectedCycle(old(waitForGraph)) ==> found
      ensures !found ==> Engine() == old(Engine())
    {
      ghost var e0 := Engine();
      var path;
      found, path := HasCycle(waitForGraph, []);
      if found {
        var pool := Pool(path);
        var transactionToAbort, txns' := ChooseVictim(idToTransaction, pool);
        idToTransaction := txns';
        Abort(transactionToAbort);
        assert Engine() == Resolve(e0, path);
        ResolveKeepsOk(e0, path);
      }
    }

    /**
     * The loop of `simulate`, for at most `fuel` operations. It stops early
     * when the queue is empty, and before a FAIL or RECOVER naming no site.
     */
    method Simulate(fuel: nat) returns (ghost trace: seq<Engine>)
      requires Valid()
      modifies this, Repr
      ensures Valid()
      ensures trace != [] && trace[0] == old(Engine()) && trace[|trace| - 1] == Engine()
      ensures Run(trace)
      ensures || operations == []
              || |trace| == fuel + 1
              || ((operations[0].action.Fail? || operations[0].action.Recover?) && !(1 <= operations[0].siteId <= SiteCount))
    {
      trace := [Engine()];
      var n := 0;
      while n < fuel && operations != []
        invariant Valid()
        invariant 0 <= n <= fuel && |trace| == n + 1
        invariant trace[0] == old(Engine()) && trace[n] == Engine()
        invariant Run(trace)
      {
        var op := operations[0];
        if (op.action.Fail? || op.action.Recover?) && !(1 <= op.siteId <= SiteCount) {
          break;
        }
        ghost var before := Engine();
        Execute();
        RunSnoc(trace, Engine());
        trace := trace + [Engine()];
        n := n + 1;
      }
    }

    /**
     * One turn of the loop of `simulate`: the head of the queue is taken
     * off, the clock advances, the operation runs, and a READ or WRITE is
     * followed by deadlock detection.
     */
    method Execute()
      requires Valid() && operations != []
      requires var op := operations[0];
        !((op.action.Fail? || op.action.Recover?) && !(1 <= op.siteId <= SiteCount))
      modifies this, Repr
      ensures Step(old(Engine()), Engine()) && Valid()
    {
      ghost var e0 := Engine();
      var op := operations[0];
      operations := operations[1..];
      time := time + 1;
      assert Engine() == e0.(operations := e0.operations[1..], time := e0.time + 1);
      Dispatch(op);
    }

    /** Runs one operation; READ and WRITE are followed by deadlock detection. */
    method Dispatch(op: Operation)
      requires Valid()
      requires !((op.action.Fail? || op.action.Recover?) && !(1 <= op.siteId <= SiteCount))
      modifies this, Repr
      ensures Apply(old(Engine()), op, Engine()) && Valid()
    {
      match op.action {
        case Begin =>
          Begin(op, false);
        case BeginRO =>
          Begin(op, true);
        case Read =>
          Read(op);
          var _ := DetectDeadLock();
        case Write =>
          Write(op);
          var _ := DetectDeadLock();
        case Fail =>
          Fail(op);
        case Recover =>
          Recover(op);
        case End =>
          Commit(op);
        case Dump =>
      }
    }
  }
}
