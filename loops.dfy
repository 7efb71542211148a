/**
 * The loops of the transaction manager that work only on lists, maps and
 * sets, as methods over values. Each is proved to compute the function of
 * module Protocol that describes it; the class in module Manager calls
 * them on its fields.
 */
module Loops {

  import opened Records
  import opened Locks
  import opened Sites
  import opened WaitFor
  import opened Protocol
  import opened Choice

  /**
   * The reverse-iterator loop that pushes, at the queue front, each parked
   * operation of a transaction in `ids`: they end up in parking order.
   */
  method PushOpsFront(blocked: seq<Operation>, ids: set<int>, ops: seq<Operation>) returns (ops': seq<Operation>)
    ensures ops' == OpsOf(blocked, ids) + ops
  {
    ops' := ops;
    var j := |blocked|;
    while j > 0
      invariant 0 <= j <= |blocked|
      invariant ops' == OpsOf(blocked[j..], ids) + ops
    {
      j := j - 1;
      OpsOfFront(blocked[j..], ids);
      assert blocked[j..][0] == blocked[j] && blocked[j..][1..] == blocked[j + 1..];
      if blocked[j].transactionId in ids {
        ops' := [blocked[j]] + ops';
      }
    }
    assert blocked[0..] == blocked;
  }

  /**
   * The requeue loop of `commit`: waiters from last to first, and for each
   * the parked operations from last to first, each pushed at the front.
   */
  method RequeueWaiters(blocked: seq<Operation>, waiters: seq<int>, ops: seq<Operation>) returns (ops': seq<Operation>)
    ensures ops' == Requeue(blocked, waiters) + ops
  {
    ops' := ops;
    var i := |waiters|;
    while i > 0
      invariant 0 <= i <= |waiters|
      invariant ops' == Requeue(blocked, waiters[i..]) + ops
    {
      i := i - 1;
      assert waiters[i..][1..] == waiters[i + 1..];
      ops' := PushOpsFront(blocked, {waiters[i]}, ops');
    }
    assert waiters[0..] == waiters;
  }

  /** `std::remove_if` followed by `erase`: drops the operations of transactions in `ids`. */
  method RemoveOpsOf(ops: seq<Operation>, ids: set<int>) returns (kept: seq<Operation>)
    ensures kept == OpsNotOf(ops, ids)
  {
    kept := [];
    var i := 0;
    while i < |ops|
      invariant 0 <= i <= |ops|
      invariant kept == OpsNotOf(ops[..i], ids)
    {
      OpsNotOfAppend(ops[..i], ops[i], ids);
      assert ops[..i + 1] == ops[..i] + [ops[i]];
      if ops[i].transactionId !in ids {
        kept := kept + [ops[i]];
      }
      i := i + 1;
    }
    assert ops[..i] == ops;
  }

  /**
   * The erase loop of `commit` over `siteFailedOperations`: drops the
   * operations of `tx` and reports whether there were any.
   */
  method DropOpsOf(ops: seq<Operation>, tx: int) returns (kept: seq<Operation>, found: bool)
    ensures kept == OpsNotOf(ops, {tx})
    ensures found <==> exists o :: o in ops && o.transactionId == tx
    ensures found <==> OpsOf(ops, {tx}) != []
  {
    kept, found := [], false;
    var i := 0;
    while i < |ops|
      invariant 0 <= i <= |ops|
      invariant kept == OpsNotOf(ops[..i], {tx})
      invariant found <==> exists o :: o in ops[..i] && o.transactionId == tx
    {
      OpsNotOfAppend(ops[..i], ops[i], {tx});
      assert ops[..i + 1] == ops[..i] + [ops[i]];
      if ops[i].transactionId == tx {
        found := true;
      } else {
        kept := kept + [ops[i]];
      }
      i := i + 1;
    }
    assert ops[..i] == ops;
    ghost var sel := OpsOf(ops, {tx});
    OpsOfMembers(ops, {tx});
    assert sel != [] ==> sel[0] in sel;
  }

  /** Pushes every operation of `front` at the queue front, last first. */
  method PushAllFront(front: seq<Operation>, ops: seq<Operation>) returns (ops': seq<Operation>)
    ensures ops' == front + ops
  {
    ops' := ops;
    var i := |front|;
    while i > 0
      invariant 0 <= i <= |front|
      invariant ops' == front[i..] + ops
    {
      i := i - 1;
      assert front[i..] == [front[i]] + front[i + 1..];
      ops' := [front[i]] + ops';
    }
    assert front[0..] == front;
  }

  /** The loop of `write` adding an edge from every holder except the writer. */
  method AddHolders(g: Graph, holders: set<int>, tx: int) returns (g': Graph)
    ensures g' == AddEdges(g, holders - {tx}, tx)
  {
    g' := g;
    var pending := holders;
    while pending != {}
      invariant pending <= holders
      invariant forall h :: h in g' <==> h in g || h in holders - pending - {tx}
      invariant forall h :: h in g' ==>
        g'[h] == if h in holders - pending - {tx} then Waiters(g, h) + [tx] else g[h]
      decreases pending
    {
      NonEmptyHasMember(pending);
      var h :| h in pending;
      if h != tx {
        g' := g'[h := Waiters(g', h) + [tx]];
      }
      pending := pending - {h};
    }
    ghost var want := AddEdges(g, holders - {tx}, tx);
    assert forall h :: h in g' <==> h in want;
    assert forall h :: h in g' ==> g'[h] == want[h];
  }

  /** The loop of `abort` removing `t` from every waiter list. */
  method RemoveWaiter(g: Graph, t: int) returns (g': Graph)
    ensures g'.Keys == g.Keys
    ensures forall u :: u in g ==> g'[u] == Without(g[u], t)
  {
    g' := g;
    var pending := g.Keys;
    while pending != {}
      invariant pending <= g.Keys == g'.Keys
      invariant forall u :: u in g ==> g'[u] == if u in pending then g[u] else Without(g[u], t)
      decreases pending
    {
      NonEmptyHasMember(pending);
      var u :| u in pending;
      g' := g'[u := Without(g'[u], t)];
      pending := pending - {u};
    }
  }

  /** The final loop of `abort`: drops every empty waiter list. */
  method PruneEmpty(g: Graph) returns (g': Graph)
    ensures forall u :: u in g' <==> u in g && g[u] != []
    ensures forall u :: u in g' ==> g'[u] == g[u]
  {
    g' := g;
    var pending := g.Keys;
    while pending != {}
      invariant pending <= g.Keys
      invariant forall u :: u in g' <==> u in g && (u in pending || g[u] != [])
      invariant forall u :: u in g' ==> g'[u] == g[u]
      decreases pending
    {
      NonEmptyHasMember(pending);
      var u :| u in pending;
      if g'[u] == [] {
        g' := g' - {u};
      }
      pending := pending - {u};
    }
  }

  /**
   * The bookkeeping of a successful `commit`, step by step as the program
   * does it: the record is marked COMMITED, its variables leave the
   * uncommitted table, its waiters' parked operations are requeued in
   * front and leave the parking list, and it leaves the wait-for graph.
   */
  method SettleCommitted(txns: map<int, Transaction>, uncommitted: map<int, int>, g: Graph,
                         blocked: seq<Operation>, ops: seq<Operation>, tx: int)
    returns (txns': map<int, Transaction>, uncommitted': map<int, int>, g': Graph,
             blocked': seq<Operation>, ops': seq<Operation>)
    requires tx in txns
    ensures var t, ws := txns[tx], Waiters(g, tx);
      && txns' == txns[tx := t.(status := Committed)]
      && uncommitted' == (map y | y in uncommitted && y !in t.affected :: uncommitted[y])
      && ops' == Requeue(blocked, ws) + ops
      && blocked' == OpsNotOf(blocked, set w | w in ws)
      && g' == g - {tx}
  {
    var t := txns[tx];
    txns' := txns[tx := t.(status := Committed)];
    uncommitted' := ForgetAll(uncommitted, t.affected);
    var blockedTrans := Waiters(g, tx);
    ops' := RequeueWaiters(blocked, blockedTrans, ops);
    blocked' := RemoveOpsOf(blocked, set w | w in blockedTrans);
    g' := g - {tx};
  }

  /**
   * The bookkeeping of `abort(t)`, step by step as the program does it:
   * t's record is erased, its waiters' parked operations move to the queue
   * front, its own and its waiters' parked operations are dropped, t is
   * recorded as ABORTED, and t leaves the wait-for graph.
   */
  method ForgetAborted(txns: map<int, Transaction>, g: Graph, blocked: seq<Operation>,
                       ops: seq<Operation>, t: int)
    returns (txns': map<int, Transaction>, g': Graph, blocked': seq<Operation>, ops': seq<Operation>)
    ensures var waited := set w | w in Waiters(g, t);
      && txns' == txns[t := DefaultTransaction.(status := Aborted)]
      && g' == AbortGraph(g, t)
      && ops' == OpsOf(blocked, waited) + ops
      && blocked' == OpsNotOf(blocked, waited + {t})
  {
    txns' := txns - {t};
    var waitedList := Waiters(g, t);
    var waitedTrans := set w | w in waitedList;
    g' := g - {t};
    g' := RemoveWaiter(g', t);
    ops' := PushOpsFront(blocked, waitedTrans, ops);
    blocked' := RemoveOpsOf(blocked, waitedTrans + {t});
    txns' := txns'[t := DefaultTransaction.(status := Aborted)];
    g' := PruneEmpty(g');
    ghost var want := AbortGraph(g, t);
    assert forall u :: u in g' <==> u in want;
    assert forall u :: u in g' ==> g'[u] == want[u];
    ghost var aborted := txns[t := DefaultTransaction.(status := Aborted)];
    assert forall u :: u in txns' <==> u in aborted;
    assert forall u :: u in txns' ==> txns'[u] == aborted[u];
  }

  /** Erases every key of `keys` from `m` (the `uncommitedVariable` loop of `commit`). */
  method ForgetAll(m: map<int, int>, keys: set<int>) returns (m': map<int, int>)
    ensures m' == map y | y in m && y !in keys :: m[y]
  {
    m' := m;
    var pending := keys;
    while pending != {}
      invariant pending <= keys
      invariant forall y :: y in m' <==> y in m && y !in keys - pending
      invariant forall y :: y in m' ==> m'[y] == m[y]
      decreases pending
    {
      NonEmptyHasMember(pending);
      var y :| y in pending;
      m' := m' - {y};
      pending := pending - {y};
    }
    ghost var want := map y | y in m && y !in keys :: m[y];
    assert forall y :: y in m' <==> y in want;
    assert forall y :: y in m' ==> m'[y] == want[y];
  }

  /**
   * The loop of `detectDeadLock` over the pool: each member is looked up
   * (inserting a default record when unknown), and a strictly later start
   * time than the best so far makes it the victim.
   */
  method ChooseVictim(txns: map<int, Transaction>, pool: seq<int>) returns (victim: int, txns': map<int, Transaction>)
    ensures victim == Youngest(txns, pool).id
    ensures txns' == TouchAll(txns, pool)
  {
    var youngestTime := 0;
    victim, txns' := 0, txns;
    ghost var best := Victim(0, 0, -1);
    var i := 0;
    while i < |pool|
      invariant 0 <= i <= |pool|
      invariant best == Youngest(txns, pool[..i])
      invariant victim == best.id && youngestTime == best.startTime
      invariant txns' == TouchAll(txns, pool[..i])
    {
      YoungestStep(txns, pool, i);
      TouchAllStep(txns, pool, i);
      var trans := Lookup(txns', pool[i]);
      txns' := Touch(txns', pool[i]);
      if trans.startTime > youngestTime {
        youngestTime := trans.startTime;
        victim := pool[i];
        best := Victim(pool[i], trans.startTime, i);
      }
      i := i + 1;
    }
    assert pool[..i] == pool;
  }

  /** The loop over the sites checking one replicated variable: no DOWN site holds a tentative value. */
  method NoDownCopy(ss: seq<SiteState>, v: int) returns (ok: bool)
    requires |ss| == SiteCount
    ensures ok <==> forall k :: 0 <= k < SiteCount ==> !(ss[k].status == Down && v in ss[k].tentative)
  {
    ok := true;
    var k := 0;
    while k < SiteCount
      invariant 0 <= k <= SiteCount
      invariant ok <==> forall j :: 0 <= j < k ==> !(ss[j].status == Down && v in ss[j].tentative)
    {
      if ss[k].status == Down && v in ss[k].tentative {
        ok := false;
        break;
      }
      k := k + 1;
    }
  }

  /** The first loop of `commit`: every affected variable is available. */
  method AffectedAvailable(ss: seq<SiteState>, affected: set<int>) returns (ok: bool)
    requires |ss| == SiteCount
    ensures ok <==> forall v :: v in affected ==> VarAvailable(ss, v)
  {
    ok := true;
    var pending := affected;
    while pending != {}
      invariant pending <= affected
      invariant ok <==> forall v :: v in affected - pending ==> VarAvailable(ss, v)
      decreases pending
    {
      NonEmptyHasMember(pending);
      var v :| v in pending;
      assert affected - (pending - {v}) == (affected - pending) + {v};
      if v % 2 == 0 {
        var clean := NoDownCopy(ss, v);
        if !clean {
          ok := false;
        }
      } else if ss[v % 10].status == Down || (ss[v % 10].status == Up && v !in ss[v % 10].tentative) {
        ok := false;
      }
      pending := pending - {v};
    }
  }

  /** The per-site loops of `commit` over the affected variables and the read history. */
  method SiteAllowsCheck(s: SiteState, t: Transaction, time: int) returns (ok: bool)
    ensures ok == SiteAllows(s, t, time)
  {
    ok := true;
    var pending := t.affected;
    while pending != {}
      invariant pending <= t.affected
      invariant ok <==> forall v :: v in t.affected - pending ==>
        v !in s.writeRestricted && !(WrittenAt(t, v) < s.failedTime)
      decreases pending
    {
      NonEmptyHasMember(pending);
      var v :| v in pending;
      if v in s.writeRestricted {
        ok := false;
      }
      if WrittenAt(t, v) < s.failedTime {
        ok := false;
      }
      pending := pending - {v};
    }
    ghost var writesOk := ok;
    var pendingReads := t.readHistory.Keys;
    while pendingReads != {}
      invariant pendingReads <= t.readHistory.Keys
      invariant ok <==> writesOk && forall y :: y in t.readHistory.Keys - pendingReads && y in s.committed ==>
        !(time < s.failedTime)
      decreases pendingReads
    {
      NonEmptyHasMember(pendingReads);
      var y :| y in pendingReads;
      if y in s.committed && time < s.failedTime {
        ok := false;
      }
      pendingReads := pendingReads - {y};
    }
  }

  /** The eligibility loops of `commit`, before the parked operations are looked at. */
  method CheckEligible(ss: seq<SiteState>, t: Transaction, time: int) returns (ok: bool)
    requires |ss| == SiteCount
    ensures ok == Eligible(ss, t, time)
  {
    ok := AffectedAvailable(ss, t.affected);
    ghost var varsOk := ok;
    var k := 0;
    while k < SiteCount
      invariant 0 <= k <= SiteCount
      invariant ok <==> varsOk && forall j :: 0 <= j < k ==> SiteAllows(ss[j], t, time)
    {
      var allows := SiteAllowsCheck(ss[k], t, time);
      if !allows {
        ok := false;
      }
      k := k + 1;
    }
  }

  /**
   * The first loop of a successful `recover`: each uncommitted variable
   * written no later than the failure, and held by the site, becomes
   * write-restricted.
   */
  method RestrictStale(writeRestricted: set<int>, uncommitted: map<int, int>, s: SiteState) returns (wr: set<int>)
    ensures wr == writeRestricted + StaleWrites(uncommitted, s)
  {
    wr := writeRestricted;
    var pending := uncommitted.Keys;
    while pending != {}
      invariant pending <= uncommitted.Keys
      invariant forall x :: x in wr <==> (x in writeRestricted ||
        (x in uncommitted && x !in pending && uncommitted[x] <= s.failedTime && x in s.committed))
      decreases pending
    {
      NonEmptyHasMember(pending);
      var x :| x in pending;
      if !(uncommitted[x] > s.failedTime) && x in s.committed {
        wr := wr + {x};
      }
      pending := pending - {x};
    }
    assert forall x :: x in wr <==> x in writeRestricted + StaleWrites(uncommitted, s);
  }

  /** The inner loop of the read-history check of `recover`, over one transaction. */
  method HasReadBefore(t: Transaction, s: SiteState) returns (stale: bool)
    ensures stale == ReadBefore(t, s)
  {
    stale := false;
    var pending := t.readHistory.Keys;
    while pending != {}
      invariant pending <= t.readHistory.Keys
      invariant stale <==>
        (exists v :: v in t.readHistory && v !in pending && v in s.committed && t.readHistory[v] < s.failedTime)
      decreases pending
    {
      NonEmptyHasMember(pending);
      var v :| v in pending;
      if v in s.committed && t.readHistory[v] < s.failedTime {
        stale := true;
      }
      pending := pending - {v};
    }
  }

  /** The outer loop of the read-history check of `recover`, over the registry. */
  method MarkStaleReaders(txns: map<int, Transaction>, s: SiteState) returns (txns': map<int, Transaction>)
    ensures txns' == AbortStaleReaders(txns, s)
  {
    txns' := txns;
    var pending := txns.Keys;
    while pending != {}
      invariant pending <= txns.Keys == txns'.Keys
      invariant forall id :: id in txns ==>
        txns'[id] == if id !in pending && ReadBefore(txns[id], s) then txns[id].(status := Aborted) else txns[id]
      decreases pending
    {
      NonEmptyHasMember(pending);
      var id :| id in pending;
      var stale := HasReadBefore(txns'[id], s);
      if stale {
        txns' := txns'[id := txns'[id].(status := Aborted)];
      }
      pending := pending - {id};
    }
    ghost var want := AbortStaleReaders(txns, s);
    assert forall id :: id in txns' ==> txns'[id] == want[id];
  }

  /**
   * The loop of `copyCommitedValue` over one site's committed map: every
   * entry that is not read-restricted overwrites the copy.
   */
  method Overlay(copy: map<int, int>, s: SiteState) returns (copy': map<int, int>)
    ensures copy' == copy + Visible(s)
  {
    copy' := copy;
    var pending := s.committed.Keys;
    while pending != {}
      invariant pending <= s.committed.Keys
      invariant forall x :: x in copy' <==> x in copy || (x in s.committed && x !in pending && x !in s.readRestricted)
      invariant forall x :: x in copy' ==>
        copy'[x] == if x in s.committed && x !in pending && x !in s.readRestricted then s.committed[x] else copy[x]
      decreases pending
    {
      NonEmptyHasMember(pending);
      var x :| x in pending;
      if x !in s.readRestricted {
        copy' := copy'[x := s.committed[x]];
      }
      pending := pending - {x};
    }
    ghost var want := copy + Visible(s);
    assert forall x :: x in copy' <==> x in want;
    assert forall x :: x in copy' ==> copy'[x] == want[x];
  }
}
