/**
 * The transaction manager's state and operations as values. An Engine is
 * the whole state of the simulator: the logical clock, the operation queue,
 * the transaction registry, the two parking lists (operations blocked on a
 * lock, operations that found no available site), the wait-for graph
 * (lock holder -> transactions waiting for it), the write time of every
 * uncommitted variable, and the ten sites.
 *
 * Every operation of the manager is a function from Engine to Engine here;
 * the class in module Manager is proved against these functions.
 */
module Protocol {

  import opened Records
  import opened Locks
  import opened Sites
  import opened WaitFor
  import opened Choice

  const SiteCount: int := 10

  datatype Engine = Engine(
    time: int,
    operations: seq<Operation>,
    txns: map<int, Transaction>,
    blocked: seq<Operation>,
    siteFailed: seq<Operation>,
    waitFor: Graph,
    uncommitted: map<int, int>,
    sites: seq<SiteState>)

  /** Ten sites, numbered 1..10 in order, each keeping its own invariant. */
  predicate SitesOk(ss: seq<SiteState>) {
    |ss| == SiteCount && forall k :: 0 <= k < |ss| ==> ss[k].id == k + 1 && Inv(ss[k])
  }

  /** Every wait-for list is non-empty and nobody waits for itself. */
  predicate GraphOk(g: Graph) {
    forall u :: u in g ==> g[u] != [] && u !in g[u]
  }

  /**
   * What the manager keeps true between operations: well-formed sites, no
   * failure recorded in the future, and a tidy wait-for graph.
   */
  predicate EngineOk(e: Engine) {
    && SitesOk(e.sites)
    && (forall k :: 0 <= k < |e.sites| ==> e.sites[k].failedTime <= e.time)
    && GraphOk(e.waitFor)
  }

  /** The state `simulate` starts from, with the sites already built. */
  function Initial(ops: seq<Operation>): Engine {
    Engine(0, ops, map[], [], [], map[], map[], seq(SiteCount, k => NewSite(k + 1)))
  }

  /** The starting state keeps the manager's invariant; site k + 1 sits at index k. */
  lemma InitialOk(ops: seq<Operation>)
    ensures EngineOk(Initial(ops)) && Initial(ops).operations == ops && Initial(ops).time == 0
    ensures |Initial(ops).sites| == SiteCount
    ensures forall k :: 0 <= k < SiteCount ==> Initial(ops).sites[k] == NewSite(k + 1)
  {
    var ss := Initial(ops).sites;
    assert forall k :: 0 <= k < SiteCount ==> ss[k] == NewSite(k + 1);
  }

  // ---------------------------------------------------------------------
  // Lists of operations and the wait-for graph
  // ---------------------------------------------------------------------

  /** The operations of transactions in `ids`, in their original order. */
  function OpsOf(ops: seq<Operation>, ids: set<int>): seq<Operation> {
    if ops == [] then []
    else (if ops[0].transactionId in ids then [ops[0]] else []) + OpsOf(ops[1..], ids)
  }

  /** `OpsOf` keeps exactly the operations of transactions in `ids`. */
  lemma {:induction false} OpsOfMembers(ops: seq<Operation>, ids: set<int>)
    ensures forall o :: o in OpsOf(ops, ids) <==> o in ops && o.transactionId in ids
    ensures |OpsOf(ops, ids)| <= |ops|
  {
    if ops != [] {
      OpsOfMembers(ops[1..], ids);
      assert forall o :: o in ops <==> o == ops[0] || o in ops[1..];
    }
  }

  /** `OpsNotOf` keeps exactly the operations of transactions not in `ids`. */
  lemma {:induction false} OpsNotOfMembers(ops: seq<Operation>, ids: set<int>)
    ensures forall o :: o in OpsNotOf(ops, ids) <==> o in ops && o.transactionId !in ids
    ensures |OpsNotOf(ops, ids)| <= |ops|
  {
    if ops != [] {
      OpsNotOfMembers(ops[1..], ids);
      assert forall o :: o in ops <==> o == ops[0] || o in ops[1..];
    }
  }

  /** One step of `OpsOf` at the head of a non-empty list. */
  lemma OpsOfFront(ops: seq<Operation>, ids: set<int>)
    requires ops != []
    ensures OpsOf(ops, ids) == (if ops[0].transactionId in ids then [ops[0]] else []) + OpsOf(ops[1..], ids)
  {
  }

  /** The operations of transactions not in `ids`, in their original order. */
  function OpsNotOf(ops: seq<Operation>, ids: set<int>): seq<Operation> {
    if ops == [] then []
    else (if ops[0].transactionId !in ids then [ops[0]] else []) + OpsNotOf(ops[1..], ids)
  }

  /** Selecting and discarding by the same ids splits a list without loss. */
  lemma {:induction false} OpsSplit(ops: seq<Operation>, ids: set<int>)
    ensures multiset(OpsOf(ops, ids)) + multiset(OpsNotOf(ops, ids)) == multiset(ops)
  {
    if ops != [] {
      var rest := ops[1..];
      OpsSplit(rest, ids);
      assert ops == [ops[0]] + rest;
      assert multiset(ops) == multiset([ops[0]]) + multiset(rest);
      if ops[0].transactionId in ids {
        assert OpsOf(ops, ids) == [ops[0]] + OpsOf(rest, ids);
        assert OpsNotOf(ops, ids) == OpsNotOf(rest, ids);
      } else {
        assert OpsOf(ops, ids) == OpsOf(rest, ids);
        assert OpsNotOf(ops, ids) == [ops[0]] + OpsNotOf(rest, ids);
      }
    }
  }

  /** Filtering an extended list extends the filtered list. */
  lemma {:induction false} OpsNotOfAppend(ops: seq<Operation>, o: Operation, ids: set<int>)
    ensures OpsNotOf(ops + [o], ids) == OpsNotOf(ops, ids) + (if o.transactionId !in ids then [o] else [])
  {
    var tail := if o.transactionId !in ids then [o] else [];
    if ops == [] {
      assert ops + [o] == [o] && [o][1..] == [];
    } else {
      var t := ops + [o];
      assert t[0] == ops[0] && t[1..] == ops[1..] + [o];
      OpsNotOfAppend(ops[1..], o, ids);
      var h := if ops[0].transactionId !in ids then [ops[0]] else [];
      assert OpsNotOf(t, ids) == h + (OpsNotOf(ops[1..], ids) + tail);
      assert OpsNotOf(ops, ids) == h + OpsNotOf(ops[1..], ids);
    }
  }

  /**
   * The operations `commit` puts back at the queue front: the parked
   * operations of each waiter in turn, in waiter-list order, each group in
   * parking order. A waiter listed twice has its operations listed twice.
   */
  function Requeue(blocked: seq<Operation>, waiters: seq<int>): (r: seq<Operation>)
    ensures forall o :: o in r <==> o in blocked && o.transactionId in waiters
  {
    if waiters == [] then []
    else OpsOfMembers(blocked, {waiters[0]}); OpsOf(blocked, {waiters[0]}) + Requeue(blocked, waiters[1..])
  }

  /** `waiters` without any occurrence of `t` (std::list::remove). */
  function Without(waiters: seq<int>, t: int): (r: seq<int>)
    ensures forall w :: w in r <==> w in waiters && w != t
    ensures |r| <= |waiters|
  {
    if waiters == [] then []
    else (if waiters[0] != t then [waiters[0]] else []) + Without(waiters[1..], t)
  }

  /** The waiters of `t`; looking up an absent key sees an empty list. */
  function Waiters(g: Graph, t: int): (ws: seq<int>)
    ensures t in g ==> ws == g[t]
    ensures t !in g ==> ws == []
  {
    if t in g then g[t] else []
  }

  /** `waitForGraph[h].push_back(w)` for every `h` in `holders`. */
  function AddEdges(g: Graph, holders: set<int>, w: int): (r: Graph)
    ensures r.Keys == g.Keys + holders
    ensures forall h :: h in holders ==> r[h] == Waiters(g, h) + [w]
    ensures forall h :: h in g && h !in holders ==> r[h] == g[h]
    ensures forall h :: h in holders ==> Edge(r, h, w)
    ensures GraphOk(g) && w !in holders ==> GraphOk(r)
  {
    g + map h | h in holders :: Waiters(g, h) + [w]
  }

  /** A single holder: one list extended. */
  lemma AddEdge(g: Graph, h: int, w: int)
    ensures AddEdges(g, {h}, w) == g[h := Waiters(g, h) + [w]]
  {
    var r := AddEdges(g, {h}, w);
    assert forall u :: u in r <==> u in g[h := Waiters(g, h) + [w]];
  }

  /**
   * The graph after `abort(t)`: t's own list is gone, t is removed from
   * every other list, and lists left empty are dropped.
   */
  function AbortGraph(g: Graph, t: int): (r: Graph)
    ensures t !in r
    ensures forall u :: u in r ==> t !in r[u] && r[u] != []
    ensures forall u, v :: Edge(r, u, v) <==> Edge(g, u, v) && u != t && v != t
    ensures GraphOk(g) ==> GraphOk(r)
  {
    map u | u in g && u != t && Without(g[u], t) != [] :: Without(g[u], t)
  }

  // ---------------------------------------------------------------------
  // begin and read-only snapshots
  // ---------------------------------------------------------------------

  /** The committed values of one site that a snapshot may copy. */
  function Visible(s: SiteState): (m: map<int, int>)
    ensures forall x :: x in m <==> x in s.committed && x !in s.readRestricted
    ensures forall x :: x in m ==> m[x] == s.committed[x]
  {
    map x | x in s.committed && x !in s.readRestricted :: s.committed[x]
  }

  /** The last site whose copy of `x` a snapshot may take, or -1. */
  function LastVisible(ss: seq<SiteState>, x: int): (k: int)
    ensures -1 <= k < |ss|
    ensures k >= 0 ==> x in Visible(ss[k])
    ensures forall j :: k < j < |ss| ==> x !in Visible(ss[j])
  {
    if ss == [] then -1
    else if x in Visible(ss[|ss| - 1]) then |ss| - 1
    else LastVisible(ss[..|ss| - 1], x)
  }

  /**
   * `copyCommitedValue`: every site in order, up or down, contributes its
   * committed values except read-restricted ones; a later site overwrites
   * an earlier one, so each value comes from the last site that has it.
   */
  function Snapshot(ss: seq<SiteState>): (m: map<int, int>)
    ensures forall x :: x in m <==> LastVisible(ss, x) >= 0
    ensures forall x :: x in m ==> m[x] == ss[LastVisible(ss, x)].committed[x]
  {
    if ss == [] then map[]
    else Snapshot(ss[..|ss| - 1]) + Visible(ss[|ss| - 1])
  }

  /** `begin`: a new RUNNING record; a read-only one also takes a snapshot. */
  function BeginSpec(e: Engine, op: Operation, readOnly: bool): (r: Engine)
    ensures op.transactionId in r.txns
    ensures var t := r.txns[op.transactionId];
      && t.id == op.transactionId && t.startTime == op.timeStamp && t.isReadOnly == readOnly
      && t.status == Running && t.affected == {} && t.readHistory == map[] && t.writeHistory == map[]
      && t.snapshot == (if readOnly then Snapshot(e.sites) else map[])
    ensures forall id :: id in e.txns && id != op.transactionId ==> id in r.txns && r.txns[id] == e.txns[id]
    ensures r.txns.Keys == e.txns.Keys + {op.transactionId}
    ensures r == e.(txns := r.txns)
    ensures EngineOk(e) ==> EngineOk(r)
  {
    var t := NewTransaction(op.transactionId, op.timeStamp, readOnly);
    e.(txns := e.txns[t.id := if readOnly then t.(snapshot := Snapshot(e.sites)) else t])
  }

  // ---------------------------------------------------------------------
  // read
  // ---------------------------------------------------------------------

  /** The first site whose `read` of `x` succeeds, or |ss| when none does. */
  function FirstReadable(ss: seq<SiteState>, x: int): (k: nat)
    ensures k <= |ss|
    ensures forall j :: 0 <= j < k ==> !Readable(ss[j], x)
    ensures k < |ss| ==> Readable(ss[k], x)
  {
    if ss == [] then 0
    else if Readable(ss[0], x) then 0
    else 1 + FirstReadable(ss[1..], x)
  }

  /**
   * Where `read` stands after asking sites 1..n in order: the sites,
   * whether one has served the read, and the lock holder reported. Once a
   * site serves it, later sites are not asked.
   */
  datatype ReadRound = ReadRound(sites: seq<SiteState>, isRead: bool, holder: int)

  /** Site n + 1 is asked, unless an earlier site has served the read. */
  function ReadNext(p: ReadRound, tx: int, x: int, n: nat): ReadRound
    requires n < |p.sites|
  {
    if p.isRead then p
    else
      var rd := SiteRead(p.sites[n], tx, x, p.holder);
      ReadRound(p.sites[n := rd.site], rd.ok, rd.holder)
  }

  function ReadUpTo(ss: seq<SiteState>, tx: int, x: int, n: nat): (r: ReadRound)
    requires n <= |ss|
    ensures |r.sites| == |ss|
    ensures !r.isRead ==> r.sites == ss
  {
    if n == 0 then ReadRound(ss, false, -1) else ReadNext(ReadUpTo(ss, tx, x, n - 1), tx, x, n - 1)
  }

  /** Only the first site that can serve the read is asked to, and it reports the holder. */
  lemma {:induction false} ReadUpToFirst(ss: seq<SiteState>, tx: int, x: int, n: nat)
    requires n <= |ss|
    ensures var r, k := ReadUpTo(ss, tx, x, n), FirstReadable(ss, x);
      && r.isRead == (k < n)
      && r.sites == (if k < n then ss[k := SiteRead(ss[k], tx, x, -1).site] else ss)
      && r.holder == (if k < n then SiteRead(ss[k], tx, x, -1).holder else -1)
  {
    if n > 0 {
      ReadUpToFirst(ss, tx, x, n - 1);
    }
  }

  /** A transaction that was RUNNING now waits; any other status stays. */
  function Wait(t: Transaction): (r: Transaction)
    ensures r == t.(status := r.status)
    ensures r.status == if t.status == Running then Waiting else t.status
  {
    if t.status == Running then t.(status := Waiting) else t
  }

  /**
   * `read(op)` at the current time. The registry lookup of the reader
   * inserts a default record for an unknown id.
   */
  function ReadSpec(e: Engine, op: Operation): Engine
    requires |e.sites| == SiteCount
  {
    var tx, x := op.transactionId, op.varIdx;
    var e1 := e.(txns := Touch(e.txns, tx));
    var t := e1.txns[tx];
    if t.status == Aborted then e1
    else if t.isReadOnly then
      if x in t.snapshot then e1
      else e1.(txns := e1.txns[tx := t.(status := Aborted)])
    else
      var rr := ReadUpTo(e.sites, tx, x, SiteCount);
      ReadAfter(e1.(sites := rr.sites), op, rr.isRead, rr.holder)
  }

  /**
   * The end of a read-write `read`, once the sites have been asked: no
   * site served it (retried after a recovery), a site served it but another
   * transaction holds the write lock (parked behind that transaction), or
   * the read is recorded.
   */
  function ReadAfter(e: Engine, op: Operation, isRead: bool, holder: int): Engine
    requires op.transactionId in e.txns
  {
    var tx, t := op.transactionId, e.txns[op.transactionId];
    if !isRead then e.(siteFailed := e.siteFailed + [op])
    else if holder != -1 && holder != tx then
      e.(blocked := e.blocked + [op],
         waitFor := AddEdges(e.waitFor, {holder}, tx),
         txns := e.txns[tx := Wait(t)])
    else
      e.(txns := e.txns[tx := t.(status := Running, readHistory := t.readHistory[op.varIdx := e.time])])
  }

  /** What `read` does, case by case. */
  lemma ReadOutcome(e: Engine, op: Operation)
    requires |e.sites| == SiteCount
    // an aborted reader, or a read-only reader, changes nothing but the registry
    ensures var r, t := ReadSpec(e, op), Lookup(e.txns, op.transactionId);
      t.status == Aborted || t.isReadOnly ==> r == e.(txns := r.txns)
    ensures var r, t := ReadSpec(e, op), Lookup(e.txns, op.transactionId);
      t.status != Aborted && t.isReadOnly ==>
        r.txns == Touch(e.txns, op.transactionId)[op.transactionId :=
          if op.varIdx in t.snapshot then t else t.(status := Aborted)]
    ensures var r := ReadSpec(e, op);
      r.operations == e.operations && r.time == e.time && r.uncommitted == e.uncommitted
  {
  }

  /**
   * A read-write `read` changes at most one site: the first one that can
   * serve the read. A served read is either parked behind the writer or
   * recorded; an unserved one waits for a site.
   */
  lemma ReadServed(e: Engine, op: Operation)
    requires |e.sites| == SiteCount
    ensures var r, t := ReadSpec(e, op), Lookup(e.txns, op.transactionId);
      var k := FirstReadable(e.sites, op.varIdx);
      t.status != Aborted && !t.isReadOnly ==>
        && |r.sites| == SiteCount
        && (forall j :: 0 <= j < SiteCount && j != k ==> r.sites[j] == e.sites[j])
        && (k == SiteCount ==> r == e.(txns := Touch(e.txns, op.transactionId), siteFailed := e.siteFailed + [op]))
        && (k < SiteCount ==> r.sites[k] == SiteRead(e.sites[k], op.transactionId, op.varIdx, -1).site)
    ensures var r, t := ReadSpec(e, op), Lookup(e.txns, op.transactionId);
      var k := FirstReadable(e.sites, op.varIdx);
      t.status != Aborted && !t.isReadOnly && k < SiteCount ==>
        var h := SiteRead(e.sites[k], op.transactionId, op.varIdx, -1).holder;
        if h != -1 && h != op.transactionId then
          && r.blocked == e.blocked + [op]
          && r.waitFor == AddEdges(e.waitFor, {h}, op.transactionId)
          && r.txns == Touch(e.txns, op.transactionId)[op.transactionId := Wait(t)]
        else
          && r.blocked == e.blocked && r.waitFor == e.waitFor
          && r.txns == Touch(e.txns, op.transactionId)[op.transactionId :=
               t.(status := Running, readHistory := t.readHistory[op.varIdx := e.time])]
  {
    ReadUpToFirst(e.sites, op.transactionId, op.varIdx, SiteCount);
  }

  /** Recording a read's outcome keeps the manager's invariant. */
  lemma ReadAfterOk(e: Engine, op: Operation, isRead: bool, holder: int)
    requires EngineOk(e) && op.transactionId in e.txns
    ensures EngineOk(ReadAfter(e, op, isRead, holder))
  {
    if isRead && holder != -1 && holder != op.transactionId {
      assert GraphOk(AddEdges(e.waitFor, {holder}, op.transactionId));
    }
  }

  /** `read` keeps the manager's invariant. */
  lemma ReadKeepsOk(e: Engine, op: Operation)
    requires EngineOk(e)
    ensures EngineOk(ReadSpec(e, op))
  {
    var tx, x := op.transactionId, op.varIdx;
    var e1 := e.(txns := Touch(e.txns, tx));
    var t := e1.txns[tx];
    if t.status != Aborted && !t.isReadOnly {
      var rr := ReadUpTo(e.sites, tx, x, SiteCount);
      ReadUpToFirst(e.sites, tx, x, SiteCount);
      var k := FirstReadable(e.sites, x);
      if k < SiteCount {
        SiteReadOutcome(e.sites[k], tx, x, -1);
        assert rr.sites == e.sites[k := SiteRead(e.sites[k], tx, x, -1).site];
      }
      assert EngineOk(e1.(sites := rr.sites));
      ReadAfterOk(e1.(sites := rr.sites), op, rr.isRead, rr.holder);
    }
  }

  // ---------------------------------------------------------------------
  // write
  // ---------------------------------------------------------------------

  /**
   * Where `write` stands after trying sites 1..n: the sites, the holder set
   * shared by all of them, and the numbers of the sites that applied it.
   */
  datatype WriteRound = WriteRound(sites: seq<SiteState>, holders: set<int>, applied: seq<int>)

  function WriteUpTo(ss: seq<SiteState>, tx: int, x: int, v: int, n: nat): (r: WriteRound)
    requires n <= |ss|
    ensures |r.sites| == |ss|
  {
    if n == 0 then WriteRound(ss, {}, [])
    else
      var p := WriteUpTo(ss, tx, x, v, n - 1);
      var w := SiteWrite(p.sites[n - 1], tx, x, v, p.holders);
      WriteRound(p.sites[n - 1 := w.site], w.holders, if w.ok then p.applied + [n] else p.applied)
  }

  /** Asking sites 1..n changes only those sites, and only their locks and tentative values. */
  lemma {:induction false} WriteUpToFrame(ss: seq<SiteState>, tx: int, x: int, v: int, n: nat)
    requires n <= |ss|
    ensures var r := WriteUpTo(ss, tx, x, v, n);
      forall k :: n <= k < |ss| ==> r.sites[k] == ss[k]
    ensures var r := WriteUpTo(ss, tx, x, v, n);
      forall k :: 0 <= k < |ss| ==>
        r.sites[k] == ss[k].(locks := r.sites[k].locks, tentative := r.sites[k].tentative)
  {
    if n > 0 {
      WriteUpToFrame(ss, tx, x, v, n - 1);
      var p := WriteUpTo(ss, tx, x, v, n - 1);
      SiteWriteOutcome(p.sites[n - 1], tx, x, v, p.holders);
    }
  }

  /** Asking sites 1..n keeps each site's invariant. */
  lemma {:induction false} WriteUpToInv(ss: seq<SiteState>, tx: int, x: int, v: int, n: nat)
    requires n <= |ss|
    ensures var r := WriteUpTo(ss, tx, x, v, n);
      forall k :: 0 <= k < |ss| && Inv(ss[k]) ==> Inv(r.sites[k])
  {
    if n > 0 {
      WriteUpToInv(ss, tx, x, v, n - 1);
      var p := WriteUpTo(ss, tx, x, v, n - 1);
      SiteWriteOutcome(p.sites[n - 1], tx, x, v, p.holders);
    }
  }

  /** Only sites that could take the write are listed as applied. */
  lemma {:induction false} WriteUpToApplied(ss: seq<SiteState>, tx: int, x: int, v: int, n: nat)
    requires n <= |ss|
    ensures var r := WriteUpTo(ss, tx, x, v, n);
      forall i :: i in r.applied ==> 1 <= i <= n && Writable(ss[i - 1], x)
  {
    if n > 0 {
      WriteUpToApplied(ss, tx, x, v, n - 1);
      WriteUpToFrame(ss, tx, x, v, n - 1);
      var p := WriteUpTo(ss, tx, x, v, n - 1);
      SiteWriteOutcome(p.sites[n - 1], tx, x, v, p.holders);
    }
  }

  /**
   * All available copies or none: once some site reports a holder other
   * than the writer, every later site reports it too; so when the final
   * holder set is empty, every writable site among the first n holds the
   * new tentative value and is listed as applied.
   */
  lemma {:induction false} WriteAllOrNothing(ss: seq<SiteState>, tx: int, x: int, v: int, n: nat)
    requires n <= |ss|
    ensures var r := WriteUpTo(ss, tx, x, v, n);
      r.holders == {} || !(r.holders <= {tx})
    ensures var r := WriteUpTo(ss, tx, x, v, n);
      r.holders == {} ==> forall k :: 0 <= k < n && Writable(ss[k], x) ==>
        k + 1 in r.applied && r.sites[k].tentative == ss[k].tentative[x := v]
  {
    if n > 0 {
      WriteAllOrNothing(ss, tx, x, v, n - 1);
      WriteUpToFrame(ss, tx, x, v, n - 1);
      var p := WriteUpTo(ss, tx, x, v, n - 1);
      var w := SiteWrite(p.sites[n - 1], tx, x, v, p.holders);
      SiteWriteOutcome(p.sites[n - 1], tx, x, v, p.holders);
      assert p.sites[n - 1] == ss[n - 1];
      if Writable(ss[n - 1], x) && p.holders != {} {
        assert p.holders <= WriteBlockers(ss[n - 1].locks, x, p.holders);
        assert !w.ok;
      }
    }
  }

  /** No site can take the write: `write` reports no site, no holder, and changes no site. */
  lemma {:induction false} NoneWritable(ss: seq<SiteState>, tx: int, x: int, v: int, n: nat)
    requires n <= |ss|
    requires forall k :: 0 <= k < |ss| ==> !Writable(ss[k], x)
    ensures var r := WriteUpTo(ss, tx, x, v, n);
      r.applied == [] && r.holders == {} && r.sites == ss
  {
    if n > 0 {
      NoneWritable(ss, tx, x, v, n - 1);
    }
  }

  /** `write(op)` at the current time. */
  function WriteSpec(e: Engine, op: Operation): (r: Engine)
    requires |e.sites| == SiteCount
    ensures Lookup(e.txns, op.transactionId).status == Aborted ==>
      r == e.(txns := Touch(e.txns, op.transactionId))
    ensures r.operations == e.operations && r.time == e.time
    ensures r.sites == e.sites || r.sites == WriteUpTo(e.sites, op.transactionId, op.varIdx, op.val, SiteCount).sites
  {
    var tx := op.transactionId;
    var e1 := e.(txns := Touch(e.txns, tx));
    if e1.txns[tx].status == Aborted then e1
    else
      var w := WriteUpTo(e.sites, tx, op.varIdx, op.val, SiteCount);
      WriteAfter(e1.(sites := w.sites), op, w.holders, w.applied)
  }

  /**
   * The end of `write` once every site has been asked: no site took it
   * (retried after a recovery), some transaction other than the writer
   * holds a lock (parked, with an edge from each such holder), or the
   * write is recorded as the variable's latest uncommitted write.
   */
  function WriteAfter(e: Engine, op: Operation, holders: set<int>, applied: seq<int>): Engine
    requires op.transactionId in e.txns
  {
    var tx, x, t := op.transactionId, op.varIdx, e.txns[op.transactionId];
    if applied == [] && holders == {} then e.(siteFailed := e.siteFailed + [op])
    else if holders != {} then
      e.(blocked := e.blocked + [op], waitFor := AddEdges(e.waitFor, holders - {tx}, tx),
         txns := e.txns[tx := Wait(t)])
    else
      e.(txns := e.txns[tx := t.(status := Running, affected := t.affected + {x},
                                 writeHistory := t.writeHistory[x := e.time])],
         uncommitted := e.uncommitted[x := e.time])
  }

  /** No site can take the write: it waits in `siteFailedOperations` for a recovery. */
  lemma WriteParks(e: Engine, op: Operation)
    requires |e.sites| == SiteCount
    requires Lookup(e.txns, op.transactionId).status != Aborted
    requires forall k :: 0 <= k < SiteCount ==> !Writable(e.sites[k], op.varIdx)
    ensures WriteSpec(e, op) == e.(txns := Touch(e.txns, op.transactionId), siteFailed := e.siteFailed + [op])
  {
    NoneWritable(e.sites, op.transactionId, op.varIdx, op.val, SiteCount);
  }

  /**
   * A holder other than the writer: the write is parked, each such holder
   * gains an edge to the writer, and the writer waits if it was running.
   */
  lemma WriteBlocked(e: Engine, op: Operation)
    requires |e.sites| == SiteCount
    requires Lookup(e.txns, op.transactionId).status != Aborted
    requires WriteUpTo(e.sites, op.transactionId, op.varIdx, op.val, SiteCount).holders != {}
    ensures var r := WriteSpec(e, op);
      var w := WriteUpTo(e.sites, op.transactionId, op.varIdx, op.val, SiteCount);
      && r.blocked == e.blocked + [op]
      && (exists h :: h in w.holders && h != op.transactionId)
      && (forall h :: h in w.holders && h != op.transactionId ==> Edge(r.waitFor, h, op.transactionId))
      && r.txns[op.transactionId] == Wait(Lookup(e.txns, op.transactionId))
      && r.uncommitted == e.uncommitted && r.siteFailed == e.siteFailed
  {
    var tx := op.transactionId;
    var w := WriteUpTo(e.sites, tx, op.varIdx, op.val, SiteCount);
    WriteAllOrNothing(e.sites, tx, op.varIdx, op.val, SiteCount);
    assert w.holders - {tx} != {};
    NonEmptyHasMember(w.holders - {tx});
    var h :| h in w.holders - {tx};
  }

  /**
   * Applied: every available copy now holds the new value as a tentative
   * value, and the variable is recorded as written at the current time.
   */
  lemma WriteApplied(e: Engine, op: Operation)
    requires |e.sites| == SiteCount
    requires Lookup(e.txns, op.transactionId).status != Aborted
    requires exists k :: 0 <= k < SiteCount && Writable(e.sites[k], op.varIdx)
    requires WriteUpTo(e.sites, op.transactionId, op.varIdx, op.val, SiteCount).holders == {}
    ensures var r := WriteSpec(e, op);
      var t := Lookup(e.txns, op.transactionId);
      && (forall k :: 0 <= k < SiteCount && Writable(e.sites[k], op.varIdx) ==>
            r.sites[k].tentative == e.sites[k].tentative[op.varIdx := op.val])
      && r.txns[op.transactionId] == t.(status := Running, affected := t.affected + {op.varIdx},
                                        writeHistory := t.writeHistory[op.varIdx := e.time])
      && r.uncommitted == e.uncommitted[op.varIdx := e.time]
      && r.blocked == e.blocked && r.waitFor == e.waitFor && r.siteFailed == e.siteFailed
  {
    var tx := op.transactionId;
    WriteAllOrNothing(e.sites, tx, op.varIdx, op.val, SiteCount);
    var k :| 0 <= k < SiteCount && Writable(e.sites[k], op.varIdx);
    assert k + 1 in WriteUpTo(e.sites, tx, op.varIdx, op.val, SiteCount).applied;
  }

  /** `write` keeps the manager's invariant. */
  lemma WriteKeepsOk(e: Engine, op: Operation)
    requires EngineOk(e)
    ensures EngineOk(WriteSpec(e, op))
  {
    var tx := op.transactionId;
    var w := WriteUpTo(e.sites, tx, op.varIdx, op.val, SiteCount);
    WriteUpToFrame(e.sites, tx, op.varIdx, op.val, SiteCount);
    WriteUpToInv(e.sites, tx, op.varIdx, op.val, SiteCount);
    var r := WriteSpec(e, op);
    assert forall k :: 0 <= k < SiteCount ==> r.sites[k].id == e.sites[k].id;
  }

  // ---------------------------------------------------------------------
  // abort
  // ---------------------------------------------------------------------

  /**
   * One site during `abort(t)`: the site's own abort, then every variable
   * the transaction is recorded as having written loses its write
   * restriction there.
   */
  function AbortAt(s: SiteState, t: int, affected: set<int>): (r: SiteState)
    ensures !HoldsAny(r.locks, t)
    ensures forall y :: y in ReleasedWrites(s.locks, t) ==> y !in r.tentative
    ensures forall y :: y in r.tentative ==> y in s.tentative && r.tentative[y] == s.tentative[y]
    ensures forall y :: y in affected ==> y !in r.writeRestricted
    ensures r == s.(locks := r.locks, tentative := r.tentative, writeRestricted := r.writeRestricted)
    ensures Inv(s) ==> Inv(r)
  {
    var a := SiteAbort(s, t);
    a.(writeRestricted := a.writeRestricted - affected)
  }

  /** The sites after `abort(t)`. */
  function AbortSites(ss: seq<SiteState>, t: int, affected: set<int>): (r: seq<SiteState>)
    ensures |r| == |ss| && forall k :: 0 <= k < |ss| ==> r[k] == AbortAt(ss[k], t, affected)
  {
    seq(|ss|, k requires 0 <= k < |ss| => AbortAt(ss[k], t, affected))
  }

  /**
   * `abort(t)`: rolls t back at every site, replaces its registry record
   * by a default one marked ABORTED, takes it out of the wait-for graph,
   * and moves the parked operations of its waiters to the queue front,
   * dropping its own parked operations.
   */
  function AbortSpec(e: Engine, t: int): Engine
  {
    AbortBook(e.(sites := AbortSites(e.sites, t, Lookup(e.txns, t).affected)), t)
  }

  /**
   * The bookkeeping half of `abort(t)`: the registry record, the wait-for
   * graph and the two operation queues.
   */
  function AbortBook(e: Engine, t: int): Engine
  {
    var waited := set w | w in Waiters(e.waitFor, t);
    e.(txns := e.txns[t := DefaultTransaction.(status := Aborted)],
       operations := OpsOf(e.blocked, waited) + e.operations,
       blocked := OpsNotOf(e.blocked, waited + {t}),
       waitFor := AbortGraph(e.waitFor, t))
  }

  /** What `abort(t)` leaves behind. */
  lemma AbortOutcome(e: Engine, t: int)
    // no site holds t's locks or tentative values
    ensures var r := AbortSpec(e, t);
      |r.sites| == |e.sites|
    ensures var r := AbortSpec(e, t);
      forall k :: 0 <= k < |e.sites| ==> !HoldsAny(r.sites[k].locks, t)
    ensures var r := AbortSpec(e, t);
      forall k, y :: 0 <= k < |e.sites| && y in ReleasedWrites(e.sites[k].locks, t) ==>
      y !in r.sites[k].tentative
    ensures var r := AbortSpec(e, t);
      forall k :: 0 <= k < |e.sites| ==> r.sites[k].committed == e.sites[k].committed
    // the graph forgets t
    ensures var r := AbortSpec(e, t);
      t !in r.waitFor && forall u :: u in r.waitFor ==> t !in r.waitFor[u] && r.waitFor[u] != []
    // parked operations of t and of its waiters leave the parking list
    ensures var r := AbortSpec(e, t);
      forall o :: o in r.blocked <==>
      o in e.blocked && o.transactionId != t && o.transactionId !in Waiters(e.waitFor, t)
    // the waiters' operations go first, in parking order
    ensures var r := AbortSpec(e, t);
      r.operations == OpsOf(e.blocked, set w | w in Waiters(e.waitFor, t)) + e.operations
    // the registry marks t aborted and keeps every other record
    ensures var r := AbortSpec(e, t);
      r.txns == e.txns[t := DefaultTransaction.(status := Aborted)]
    ensures var r := AbortSpec(e, t);
      r.time == e.time && r.uncommitted == e.uncommitted && r.siteFailed == e.siteFailed
  {
    OpsNotOfMembers(e.blocked, (set w | w in Waiters(e.waitFor, t)) + {t});
  }

  /** `abort` keeps the manager's invariant. */
  lemma AbortKeepsOk(e: Engine, t: int)
    requires EngineOk(e)
    ensures EngineOk(AbortSpec(e, t))
  {
    var r := AbortSpec(e, t);
    assert forall k :: 0 <= k < SiteCount ==> r.sites[k] == AbortAt(e.sites[k], t, Lookup(e.txns, t).affected);
  }

  // ---------------------------------------------------------------------
  // commit (end)
  // ---------------------------------------------------------------------

  /** The write time `commit` sees for `v`; a missing entry reads as 0. */
  function WrittenAt(t: Transaction, v: int): (w: int)
    ensures v in t.writeHistory ==> w == t.writeHistory[v]
    ensures v !in t.writeHistory ==> w == 0
  {
    if v in t.writeHistory then t.writeHistory[v] else 0
  }

  /**
   * The per-variable availability test of `commit`: no DOWN site holds a
   * tentative value of a replicated variable, and the owner of an odd
   * variable, `sites[v % 10]`, is UP and holds one.
   */
  predicate VarAvailable(ss: seq<SiteState>, v: int)
    requires |ss| == SiteCount
  {
    if v % 2 == 0 then forall k :: 0 <= k < SiteCount ==> !(ss[k].status == Down && v in ss[k].tentative)
    else ss[v % 10].status == Up && v in ss[v % 10].tentative
  }

  /**
   * The per-site test of `commit`: no affected variable is write-restricted
   * at the site or was written before the site last failed, and no variable
   * the transaction read at the site was read while the failure lay ahead.
   */
  predicate SiteAllows(s: SiteState, t: Transaction, time: int) {
    && (forall v :: v in t.affected ==> v !in s.writeRestricted && !(WrittenAt(t, v) < s.failedTime))
    && (forall y :: y in t.readHistory && y in s.committed ==> !(time < s.failedTime))
  }

  /** Whether `commit` lets t commit, before looking at the parked operations. */
  predicate Eligible(ss: seq<SiteState>, t: Transaction, time: int)
    requires |ss| == SiteCount
  {
    && (forall v :: v in t.affected ==> VarAvailable(ss, v))
    && (forall k :: 0 <= k < SiteCount ==> SiteAllows(ss[k], t, time))
  }

  /**
   * Under the manager's invariant two of the tests can never fail: a DOWN
   * site holds no tentative value, and no failure lies in the future. What
   * decides is write restrictions, write times and the owners of odd
   * variables.
   */
  lemma EligibleUnderOk(e: Engine, t: Transaction)
    requires EngineOk(e)
    ensures Eligible(e.sites, t, e.time) <==>
      && (forall v :: v in t.affected && v % 2 == 1 ==>
            e.sites[v % 10].status == Up && v in e.sites[v % 10].tentative)
      && (forall k, v :: 0 <= k < SiteCount && v in t.affected ==>
            v !in e.sites[k].writeRestricted && WrittenAt(t, v) >= e.sites[k].failedTime)
  {
    forall v | v in t.affected && v % 2 == 0
      ensures VarAvailable(e.sites, v)
    {
      forall k | 0 <= k < SiteCount
        ensures !(e.sites[k].status == Down && v in e.sites[k].tentative)
      {
        assert Inv(e.sites[k]);
      }
    }
    forall k | 0 <= k < SiteCount
      ensures forall y :: y in t.readHistory && y in e.sites[k].committed ==> !(e.time < e.sites[k].failedTime)
    {
      assert e.sites[k].failedTime <= e.time;
    }
  }

  /** The sites after a successful commit: every UP site installs t's values. */
  function CommitSites(ss: seq<SiteState>, t: int, affected: set<int>): (r: seq<SiteState>)
    ensures |r| == |ss|
    ensures forall k :: 0 <= k < |ss| ==>
      r[k] == if ss[k].status == Up then SiteCommit(ss[k], t, affected) else ss[k]
  {
    seq(|ss|, k requires 0 <= k < |ss| => if ss[k].status == Up then SiteCommit(ss[k], t, affected) else ss[k])
  }

  /** Whether `commit(op)` commits rather than aborts. */
  predicate Commits(e: Engine, tx: int)
    requires |e.sites| == SiteCount
  {
    var t := Lookup(e.txns, tx);
    t.status != Aborted && Eligible(e.sites, t, e.time) && OpsOf(e.siteFailed, {tx}) == []
  }

  /**
   * `commit(op)`, the END operation. An aborted transaction, one that fails
   * the tests, or one with operations waiting for a site is aborted (its
   * operations waiting for a site are dropped first, unless it was already
   * aborted). Otherwise every UP site installs its values, the record is
   * marked COMMITED and the parked operations of its waiters are requeued.
   */
  function CommitSpec(e: Engine, tx: int): Engine
    requires |e.sites| == SiteCount
  {
    var e1 := e.(txns := Touch(e.txns, tx));
    var t := e1.txns[tx];
    if t.status == Aborted then AbortSpec(e1, tx)
    else
      CommitFinish(e1.(siteFailed := OpsNotOf(e.siteFailed, {tx})), tx,
                   Eligible(e.sites, t, e.time) && OpsOf(e.siteFailed, {tx}) == [])
  }

  /**
   * The end of `commit` for a live transaction, once its operations
   * waiting for a site are gone and the verdict is known: abort, or
   * install its values at every UP site and settle the bookkeeping.
   */
  function CommitFinish(e: Engine, tx: int, able: bool): Engine
    requires |e.sites| == SiteCount && tx in e.txns
  {
    if !able then AbortSpec(e, tx)
    else CommitBook(e.(sites := CommitSites(e.sites, tx, e.txns[tx].affected)), tx)
  }

  /**
   * The bookkeeping of a successful commit: the record is marked
   * COMMITED, its variables are no longer uncommitted, the parked
   * operations of its waiters are requeued in front, and it leaves the
   * wait-for graph.
   */
  function CommitBook(e: Engine, tx: int): Engine
    requires tx in e.txns
  {
    var t, ws := e.txns[tx], Waiters(e.waitFor, tx);
    e.(txns := e.txns[tx := t.(status := Committed)],
       uncommitted := map y | y in e.uncommitted && y !in t.affected :: e.uncommitted[y],
       operations := Requeue(e.blocked, ws) + e.operations,
       blocked := OpsNotOf(e.blocked, set w | w in ws),
       waitFor := e.waitFor - {tx})
  }

  /** How `commit` ends: committed exactly when the tests pass, and never still waiting for a site. */
  lemma CommitOutcome(e: Engine, tx: int)
    requires |e.sites| == SiteCount
    ensures var r := CommitSpec(e, tx);
      && tx in r.txns
      && (!Commits(e, tx) ==> r.txns[tx].status == Aborted)
      && (Commits(e, tx) ==> r.txns[tx].status == Committed)
      && (Lookup(e.txns, tx).status != Aborted ==> forall o :: o in r.siteFailed ==> o.transactionId != tx)
      && r.time == e.time
  {
    var t := Lookup(e.txns, tx);
    if t.status != Aborted {
      var r := CommitSpec(e, tx);
      OpsNotOfMembers(e.siteFailed, {tx});
      assert forall o :: o in r.siteFailed ==> o in OpsNotOf(e.siteFailed, {tx});
    }
  }

  /**
   * A successful commit: every UP site holding a tentative value of an
   * affected variable makes it the committed value; the variables are no
   * longer uncommitted; the waiters' parked operations are requeued in
   * front and leave the parking list; and t leaves the graph.
   */
  lemma CommitInstalls(e: Engine, tx: int)
    requires |e.sites| == SiteCount && Commits(e, tx)
    ensures var r := CommitSpec(e, tx);
      var t := Lookup(e.txns, tx);
      && (forall k, v :: 0 <= k < SiteCount && e.sites[k].status == Up && v in t.affected && v in e.sites[k].tentative ==>
            v in r.sites[k].committed && r.sites[k].committed[v] == e.sites[k].tentative[v])
      && (forall k :: 0 <= k < SiteCount ==> !HoldsAny(r.sites[k].locks, tx) || e.sites[k].status == Down)
      && (forall v :: v in t.affected ==> v !in r.uncommitted)
      && r.operations == Requeue(e.blocked, Waiters(e.waitFor, tx)) + e.operations
      && (forall o :: o in r.blocked <==> o in e.blocked && o.transactionId !in Waiters(e.waitFor, tx))
      && tx !in r.waitFor
  {
    var t := Lookup(e.txns, tx);
    var r := CommitSpec(e, tx);
    assert r.sites == CommitSites(e.sites, tx, t.affected);
    OpsNotOfMembers(e.blocked, set w | w in Waiters(e.waitFor, tx));
  }

  /** `commit` keeps the manager's invariant. */
  lemma CommitKeepsOk(e: Engine, tx: int)
    requires EngineOk(e)
    ensures EngineOk(CommitSpec(e, tx))
  {
    var txns := Touch(e.txns, tx);
    var t := txns[tx];
    if t.status == Aborted {
      AbortKeepsOk(e.(txns := txns), tx);
    } else if !Commits(e, tx) {
      AbortKeepsOk(e.(txns := txns, siteFailed := OpsNotOf(e.siteFailed, {tx})), tx);
    } else {
      var r := CommitSpec(e, tx);
      assert r.sites == CommitSites(e.sites, tx, t.affected);
    }
  }

  // ---------------------------------------------------------------------
  // fail and recover
  // ---------------------------------------------------------------------

  /** `fail(op)`: site `n` fails at the current time. */
  function FailSpec(e: Engine, n: int): Engine
    requires 1 <= n <= |e.sites|
  {
    e.(sites := e.sites[n - 1 := SiteFail(e.sites[n - 1], e.time)])
  }

  /** A failed site is DOWN, and the manager's invariant still holds. */
  lemma FailKeepsOk(e: Engine, n: int)
    requires EngineOk(e) && 1 <= n <= SiteCount
    ensures FailSpec(e, n).sites[n - 1].status == Down
    ensures EngineOk(FailSpec(e, n))
  {
    var r := FailSpec(e, n);
    assert forall k :: 0 <= k < SiteCount && k != n - 1 ==> r.sites[k] == e.sites[k];
  }

  /** A transaction read, before the site failed, a variable the site holds. */
  predicate ReadBefore(t: Transaction, s: SiteState) {
    exists v :: v in t.readHistory && v in s.committed && t.readHistory[v] < s.failedTime
  }

  /** The uncommitted variables written no later than the site's failure that it holds. */
  function StaleWrites(uncommitted: map<int, int>, s: SiteState): (ws: set<int>)
    ensures forall x :: x in ws <==> x in uncommitted && uncommitted[x] <= s.failedTime && x in s.committed
  {
    set x | x in uncommitted && uncommitted[x] <= s.failedTime && x in s.committed
  }

  /** The registry after a recovery of `s`: every stale reader is marked ABORTED. */
  function AbortStaleReaders(txns: map<int, Transaction>, s: SiteState): (r: map<int, Transaction>)
    ensures r.Keys == txns.Keys
    ensures forall id :: id in txns ==>
      r[id] == if ReadBefore(txns[id], s) then txns[id].(status := Aborted) else txns[id]
  {
    map id | id in txns :: if ReadBefore(txns[id], s) then txns[id].(status := Aborted) else txns[id]
  }

  /**
   * `recover(op)`. A DOWN site recovers; then each uncommitted variable it
   * holds, written no later than its failure, is write-restricted there;
   * every transaction that read a variable it holds before it failed is
   * marked ABORTED; and every operation waiting for a site goes back to the
   * queue front in order. An UP site changes nothing.
   */
  function RecoverSpec(e: Engine, n: int): Engine
    requires 1 <= n <= |e.sites|
  {
    var s := e.sites[n - 1];
    if s.status != Down then e
    else RecoverBook(e.(sites := e.sites[n - 1 := SiteRecover(s)]), n)
  }

  /**
   * What `recover` does once site n is back UP: the stale uncommitted
   * writes it holds are write-restricted there, its stale readers are
   * marked ABORTED, and the operations waiting for a site are requeued.
   */
  function RecoverBook(e: Engine, n: int): Engine
    requires 1 <= n <= |e.sites|
  {
    var rs := e.sites[n - 1];
    var site := rs.(writeRestricted := rs.writeRestricted + StaleWrites(e.uncommitted, rs));
    e.(sites := e.sites[n - 1 := site],
       txns := AbortStaleReaders(e.txns, site),
       operations := e.siteFailed + e.operations,
       siteFailed := [])
  }

  /** What `recover` leaves behind: only the recovered site and stale readers change. */
  lemma RecoverOutcome(e: Engine, n: int)
    requires 1 <= n <= |e.sites|
    ensures var r := RecoverSpec(e, n);
      |r.sites| == |e.sites| && r.txns.Keys == e.txns.Keys
    ensures var r := RecoverSpec(e, n);
      e.sites[n - 1].status == Up ==> r == e
    ensures var r := RecoverSpec(e, n);
      e.sites[n - 1].status == Down ==>
      && r.sites[n - 1].status == Up
      && StaleWrites(e.uncommitted, SiteRecover(e.sites[n - 1])) <= r.sites[n - 1].writeRestricted
      && (forall id :: id in e.txns && ReadBefore(e.txns[id], SiteRecover(e.sites[n - 1])) ==>
            r.txns[id].status == Aborted)
      && r.operations == e.siteFailed + e.operations && r.siteFailed == []
    ensures var r := RecoverSpec(e, n);
      forall k :: 0 <= k < |e.sites| && k != n - 1 ==> r.sites[k] == e.sites[k]
    ensures var r := RecoverSpec(e, n);
      forall id :: id in e.txns ==> r.txns[id] == e.txns[id] || r.txns[id] == e.txns[id].(status := Aborted)
  {
  }

  /** `recover` keeps the manager's invariant. */
  lemma RecoverKeepsOk(e: Engine, n: int)
    requires EngineOk(e) && 1 <= n <= SiteCount
    ensures EngineOk(RecoverSpec(e, n))
  {
    var r := RecoverSpec(e, n);
    assert forall k :: 0 <= k < SiteCount && k != n - 1 ==> r.sites[k] == e.sites[k];
  }

  // ---------------------------------------------------------------------
  // deadlock detection
  // ---------------------------------------------------------------------

  /** The registry after looking up every id of `ids`. */
  function TouchAll(txns: map<int, Transaction>, ids: seq<int>): map<int, Transaction>
  {
    txns + map id | id in ids && id !in txns :: DefaultTransaction
  }

  /** Looking up every id keeps the known records and adds a default record for each unknown id. */
  lemma TouchAllOutcome(txns: map<int, Transaction>, ids: seq<int>)
    ensures var r := TouchAll(txns, ids);
      forall id :: id in r <==> id in txns || id in ids
    ensures var r := TouchAll(txns, ids);
      forall id :: id in r ==> r[id] == Lookup(txns, id)
  {
  }

  /** Looking up one more pool member touches one more id. */
  lemma TouchAllStep(txns: map<int, Transaction>, pool: seq<int>, i: nat)
    requires i < |pool|
    ensures TouchAll(txns, pool[..i + 1]) == Touch(TouchAll(txns, pool[..i]), pool[i])
  {
    var a := TouchAll(txns, pool[..i + 1]);
    var b := Touch(TouchAll(txns, pool[..i]), pool[i]);
    assert forall id :: id in pool[..i + 1] <==> id in pool[..i] || id == pool[i];
    assert forall id :: id in a <==> id in b;
    assert forall id :: id in a ==> a[id] == b[id];
  }

  /** The victim of a detection, its start time, and its index in the pool (-1 for none). */
  datatype Victim = Victim(id: int, startTime: int, at: int)

  /**
   * The victim choice of `detectDeadLock`: starting from id 0 and time 0,
   * every pool member whose start time is strictly greater than the best
   * so far replaces it.
   */
  function Youngest(txns: map<int, Transaction>, pool: seq<int>): Victim
  {
    if pool == [] then Victim(0, 0, -1)
    else
      var best := Youngest(txns, pool[..|pool| - 1]);
      var last := pool[|pool| - 1];
      if Lookup(txns, last).startTime > best.startTime then
        Victim(last, Lookup(txns, last).startTime, |pool| - 1)
      else best
  }

  /**
   * The victim is transaction 0 when nobody started after time 0, and
   * otherwise the first pool member with the greatest start time.
   */
  lemma {:induction false} YoungestOutcome(txns: map<int, Transaction>, pool: seq<int>)
    ensures var v := Youngest(txns, pool);
      -1 <= v.at < |pool| && v.startTime >= 0
    ensures var v := Youngest(txns, pool);
      forall i :: 0 <= i < |pool| ==> Lookup(txns, pool[i]).startTime <= v.startTime
    ensures var v := Youngest(txns, pool);
      (v.at == -1 <==> v.startTime == 0) && (v.at == -1 ==> v.id == 0)
    ensures var v := Youngest(txns, pool);
      v.at >= 0 ==> pool[v.at] == v.id && Lookup(txns, v.id).startTime == v.startTime
    ensures var v := Youngest(txns, pool);
      v.at >= 0 ==> forall i :: 0 <= i < v.at ==> Lookup(txns, pool[i]).startTime < v.startTime
  {
    if pool != [] {
      var init := pool[..|pool| - 1];
      YoungestOutcome(txns, init);
      assert forall i :: 0 <= i < |init| ==> init[i] == pool[i];
    }
  }

  /** Extending the pool by one member extends the choice by one comparison. */
  lemma YoungestStep(txns: map<int, Transaction>, pool: seq<int>, i: nat)
    requires i < |pool|
    ensures var best := Youngest(txns, pool[..i]);
      Youngest(txns, pool[..i + 1]) ==
        if Lookup(txns, pool[i]).startTime > best.startTime
        then Victim(pool[i], Lookup(txns, pool[i]).startTime, i)
        else best
  {
    assert pool[..i + 1][..i] == pool[..i];
  }

  /**
   * What `detectDeadLock` does once `hasCycle` has reported `path`: the
   * pool is the part of the path from the first occurrence of its last
   * node, every pool member is looked up, and the victim is aborted.
   */
  function Resolve(e: Engine, path: seq<int>): (r: Engine)
    requires |path| > 0
  {
    var pool := Pool(path);
    var v := Youngest(e.txns, pool);
    AbortSpec(e.(txns := TouchAll(e.txns, pool)), v.id)
  }

  /**
   * One run of `detectDeadLock`: with no cycle reported nothing changes;
   * a real cycle is always reported. Which cycle is reported depends on
   * hash-map iteration order, so any reported path is allowed.
   */
  ghost predicate Detects(e: Engine, e': Engine) {
    (e' == e && !HasDirectedCycle(e.waitFor)) ||
    (exists path :: Reported(e.waitFor, path) && e' == Resolve(e, path))
  }

  /** The victim of a report is transaction 0 or a node of the waits-for graph. */
  lemma ResolveVictim(e: Engine, path: seq<int>)
    requires Reported(e.waitFor, path)
    ensures var v := Youngest(e.txns, Pool(path));
      v.id == 0 || IsNode(e.waitFor, v.id)
  {
    var pool := Pool(path);
    var i := FirstIndex(path, path[|path| - 1]);
    YoungestOutcome(e.txns, pool);
    var v := Youngest(e.txns, pool);
    if v.at >= 0 {
      assert pool[v.at] == path[i + v.at];
    }
  }

  /**
   * One iteration of `simulate`: take the front operation, advance the
   * clock, and run it.
   */
  ghost predicate Step(e: Engine, e': Engine)
    requires |e.sites| == SiteCount
  {
    e.operations != [] &&
    Apply(e.(operations := e.operations[1..], time := e.time + 1), e.operations[0], e')
  }

  /**
   * Dispatch on the action; READ and WRITE are followed by a deadlock
   * detection, and DUMP changes nothing.
   */
  ghost predicate Apply(e: Engine, op: Operation, e': Engine)
    requires |e.sites| == SiteCount
  {
    match op.action
    case Begin => e' == BeginSpec(e, op, false)
    case BeginRO => e' == BeginSpec(e, op, true)
    case Read => Detects(ReadSpec(e, op), e')
    case Write => Detects(WriteSpec(e, op), e')
    case Fail => 1 <= op.siteId <= SiteCount && e' == FailSpec(e, op.siteId)
    case Recover => 1 <= op.siteId <= SiteCount && e' == RecoverSpec(e, op.siteId)
    case End => e' == CommitSpec(e, op.transactionId)
    case Dump => e' == e
  }

  /** A sequence of states each reached from the previous one by one step. */
  ghost predicate Run(trace: seq<Engine>) {
    forall i :: 0 <= i < |trace| - 1 ==> |trace[i].sites| == SiteCount && Step(trace[i], trace[i + 1])
  }

  /** A run extended by one more step is still a run. */
  lemma RunSnoc(trace: seq<Engine>, e': Engine)
    requires trace != [] && Run(trace)
    requires |trace[|trace| - 1].sites| == SiteCount && Step(trace[|trace| - 1], e')
    ensures Run(trace + [e'])
  {
    var t := trace + [e'];
    forall i | 0 <= i < |t| - 1
      ensures |t[i].sites| == SiteCount && Step(t[i], t[i + 1])
    {
      if i < |trace| - 1 {
        assert t[i] == trace[i] && t[i + 1] == trace[i + 1];
      }
    }
  }

  /** Every state of a run that starts under the invariant is under the invariant. */
  lemma RunKeepsOk(trace: seq<Engine>)
    requires trace != [] && EngineOk(trace[0]) && Run(trace)
    ensures forall i :: 0 <= i < |trace| ==> EngineOk(trace[i])
  {
    forall i | 0 <= i < |trace|
      ensures EngineOk(trace[i])
    {
      RunKeepsOkAt(trace, i);
    }
  }

  lemma {:induction false} RunKeepsOkAt(trace: seq<Engine>, i: nat)
    requires i < |trace| && EngineOk(trace[0]) && Run(trace)
    ensures EngineOk(trace[i])
  {
    if i > 0 {
      RunKeepsOkAt(trace, i - 1);
      assert Step(trace[i - 1], trace[i - 1 + 1]);
      StepKeepsOk(trace[i - 1], trace[i]);
    }
  }

  /** Every step keeps the manager's invariant. */
  lemma StepKeepsOk(e: Engine, e': Engine)
    requires EngineOk(e) && Step(e, e')
    ensures EngineOk(e')
  {
    var e1 := e.(operations := e.operations[1..], time := e.time + 1);
    assert EngineOk(e1);
    ApplyKeepsOk(e1, e.operations[0], e');
  }

  /** Every operation keeps the manager's invariant. */
  lemma ApplyKeepsOk(e: Engine, op: Operation, e': Engine)
    requires EngineOk(e) && Apply(e, op, e')
    ensures EngineOk(e')
  {
    match op.action {
      case Begin =>
      case BeginRO =>
      case Read =>
        ReadKeepsOk(e, op);
        DetectKeepsOk(ReadSpec(e, op), e');
      case Write =>
        WriteKeepsOk(e, op);
        DetectKeepsOk(WriteSpec(e, op), e');
      case Fail =>
        FailKeepsOk(e, op.siteId);
      case Recover =>
        RecoverKeepsOk(e, op.siteId);
      case End =>
        CommitKeepsOk(e, op.transactionId);
      case Dump =>
    }
  }

  lemma DetectKeepsOk(e: Engine, e': Engine)
    requires EngineOk(e) && Detects(e, e')
    ensures EngineOk(e')
  {
    if e' != e {
      var path :| Reported(e.waitFor, path) && e' == Resolve(e, path);
      ResolveKeepsOk(e, path);
    }
  }

  lemma ResolveKeepsOk(e: Engine, path: seq<int>)
    requires EngineOk(e) && |path| > 0
    ensures EngineOk(Resolve(e, path))
  {
    var pool := Pool(path);
    var e1 := e.(txns := TouchAll(e.txns, pool));
    TouchAllOutcome(e.txns, pool);
    assert EngineOk(e1);
    AbortKeepsOk(e1, Youngest(e.txns, pool).id);
  }
}
