/**
 * One data site: committed values, tentative (uncommitted) values, the
 * read- and write-restricted sets that guard stale copies after a recovery,
 * an UP/DOWN status with the time of the last failure, and its own lock
 * manager.
 *
 * Variables 1..20: even ones are replicated at every site, odd variable i
 * lives only at site i % 10 + 1. Each starts at 10 * i.
 */
module Sites {

  import opened Locks
  import opened Choice

  datatype Status = Up | Down

  /** A site's whole state, as a value. */
  datatype SiteState = SiteState(
    id: int,
    status: Status,
    failedTime: int,
    committed: map<int, int>,
    tentative: map<int, int>,
    readRestricted: set<int>,
    writeRestricted: set<int>,
    locks: LockTable)

  /** Variables replicated at every site: the even indices 2..20. */
  predicate Replicated(i: int) {
    2 <= i <= 20 && i % 2 == 0
  }

  /** The odd variables 1..19 live only at site i % 10 + 1. */
  predicate OwnsOdd(id: int, i: int) {
    1 <= i <= 19 && i % 2 == 1 && id == i % 10 + 1
  }

  /** The variables `initialize` seeds at site `id`. */
  predicate Stores(id: int, i: int) {
    Replicated(i) || OwnsOdd(id, i)
  }

  /**
   * What every site keeps true: consistent lock tables, tentative values
   * only for stored variables, and a DOWN site holds neither tentative
   * values nor locks.
   */
  predicate Inv(s: SiteState) {
    && Consistent(s.locks)
    && (forall x :: x in s.tentative ==> x in s.committed)
    && (s.status == Down ==> s.tentative == map[] && s.locks == NoLocks)
  }

  /** The committed map after `initialize`. */
  function SeedDefaults(s: SiteState): (r: SiteState)
    ensures forall i :: Stores(s.id, i) ==> i in r.committed && r.committed[i] == 10 * i
    ensures forall i :: !Stores(s.id, i) ==>
      (i in r.committed <==> i in s.committed) && (i in s.committed ==> r.committed[i] == s.committed[i])
    ensures r == s.(committed := r.committed)
    ensures Inv(s) ==> Inv(r)
  {
    s.(committed := s.committed + map i | 1 <= i <= 20 && Stores(s.id, i) :: 10 * i)
  }

  /** A freshly constructed site: UP, never failed, seeded, no locks. */
  function NewSite(id: int): (r: SiteState)
    ensures Inv(r) && r.status == Up && r.id == id
    ensures forall i :: i in r.committed <==> Stores(id, i)
  {
    SeedDefaults(SiteState(id, Up, 0, map[], map[], {}, {}, NoLocks))
  }

  /** `read` passes its availability checks. */
  predicate Readable(s: SiteState, x: int) {
    s.status == Up && x in s.committed && !(x % 2 == 0 && x in s.readRestricted)
  }

  /**
   * The outcome of `read(tx, x, holder, _)`: the new state, the returned
   * flag, the lock holder reported and the value read (meaningful only
   * when `ok`).
   */
  datatype ReadResult = ReadResult(site: SiteState, ok: bool, holder: int, value: int)

  function SiteRead(s: SiteState, tx: int, x: int, holder: int): ReadResult
  {
    if s.status == Down || x !in s.committed then ReadResult(s, false, holder, 0)
    else if x % 2 == 0 && x in s.readRestricted then ReadResult(s, false, holder, 0)
    else
      var h := if x in s.locks.exclusive then s.locks.exclusive[x] else holder;
      var locks := GrantShared(s.locks, tx, x);
      if h == tx then
        // curVal[idx] inserts a zero entry when there is none
        var cur := if x in s.tentative then s.tentative else s.tentative[x := 0];
        ReadResult(s.(locks := locks, tentative := cur), true, h, cur[x])
      else
        ReadResult(s.(locks := locks), true, h, s.committed[x])
  }

  /** What `read` does at one site. */
  lemma SiteReadOutcome(s: SiteState, tx: int, x: int, holder: int)
    // unavailable: false, and neither the site nor the holder changes
    ensures var r := SiteRead(s, tx, x, holder);
      !Readable(s, x) ==> r == ReadResult(s, false, holder, 0)
    ensures var r := SiteRead(s, tx, x, holder);
      Readable(s, x) ==> r.ok
    // served: a shared lock is granted unless x is write-locked, whose
    // holder is then reported
    ensures var r := SiteRead(s, tx, x, holder);
      Readable(s, x) ==>
      && r.site.locks == GrantShared(s.locks, tx, x)
      && r.holder == (if x in s.locks.exclusive then s.locks.exclusive[x] else holder)
    // the transaction that holds the lock reads its own tentative value
    ensures var r := SiteRead(s, tx, x, holder);
      Readable(s, x) && r.holder == tx ==>
      r.value == (if x in s.tentative then s.tentative[x] else 0) && x in r.site.tentative
    ensures var r := SiteRead(s, tx, x, holder);
      Readable(s, x) && r.holder != tx ==> r.value == s.committed[x]
    ensures var r := SiteRead(s, tx, x, holder);
      r.site.committed == s.committed && r.site.status == s.status
    ensures var r := SiteRead(s, tx, x, holder);
      r.site.readRestricted == s.readRestricted && r.site.writeRestricted == s.writeRestricted
    ensures var r := SiteRead(s, tx, x, holder);
      forall y :: y != x ==> (y in r.site.tentative <==> y in s.tentative)
    ensures var r := SiteRead(s, tx, x, holder);
      forall y :: y in s.tentative ==> y in r.site.tentative && r.site.tentative[y] == s.tentative[y]
    ensures var r := SiteRead(s, tx, x, holder);
      r.site == s.(locks := r.site.locks, tentative := r.site.tentative)
    ensures var r := SiteRead(s, tx, x, holder);
      Inv(s) ==> Inv(r.site)
  {
  }

  /** `write` passes its availability checks. */
  predicate Writable(s: SiteState, x: int) {
    s.status == Up && x in s.committed && x !in s.writeRestricted
  }

  /** The outcome of `write(tx, x, v, holders)`. */
  datatype WriteResult = WriteResult(site: SiteState, ok: bool, holders: set<int>)

  function SiteWrite(s: SiteState, tx: int, x: int, v: int, holders: set<int>): WriteResult
  {
    if s.status == Down || x !in s.committed then WriteResult(s, false, holders)
    else if x in s.writeRestricted then WriteResult(s, false, holders)
    else
      var h := WriteBlockers(s.locks, x, holders);
      var locks := GrantExclusive(s.locks, tx, x);
      var promote := tx in h && |h| == 1;
      SoleHolder(h, tx);
      var locks' := if promote then Promote(locks, tx, x) else locks;
      var h' := if promote then {} else h;
      if h' == {} then
        WriteResult(s.(locks := locks', tentative := s.tentative[x := v]), true, {})
      else
        WriteResult(s.(locks := locks'), false, h')
  }

  /** What `write` does at one site. */
  lemma SiteWriteOutcome(s: SiteState, tx: int, x: int, v: int, holders: set<int>)
    // unavailable: false, nothing requested, nothing changes
    ensures var r := SiteWrite(s, tx, x, v, holders);
      !Writable(s, x) ==> r == WriteResult(s, false, holders)
    // applied exactly when the holders after the request are at most tx itself
    ensures var r := SiteWrite(s, tx, x, v, holders);
      Writable(s, x) ==> (r.ok <==> WriteBlockers(s.locks, x, holders) <= {tx})
    ensures var r := SiteWrite(s, tx, x, v, holders);
      r.ok ==> r.holders == {} && r.site.tentative == s.tentative[x := v]
    // on a consistent table the writer then holds the only lock on x
    ensures var r := SiteWrite(s, tx, x, v, holders);
      r.ok && Consistent(s.locks) ==>
      && r.holders == {}
      && r.site.tentative == s.tentative[x := v]
      && x in r.site.locks.exclusive && r.site.locks.exclusive[x] == tx
      && x !in r.site.locks.shared
    ensures var r := SiteWrite(s, tx, x, v, holders);
      Writable(s, x) && !r.ok ==>
      r.site.tentative == s.tentative && r.holders == WriteBlockers(s.locks, x, holders)
    ensures var r := SiteWrite(s, tx, x, v, holders);
      r.site == s.(locks := r.site.locks, tentative := r.site.tentative)
    ensures var r := SiteWrite(s, tx, x, v, holders);
      Inv(s) ==> Inv(r.site)
  {
    SoleHolder(WriteBlockers(s.locks, x, holders), tx);
  }

  /** A holder set reduces to exactly `{tx}` when it contains tx and has size one. */
  lemma SoleHolder(h: set<int>, tx: int)
    ensures (tx in h && |h| == 1) <==> h == {tx}
  {
    if tx in h && |h| == 1 {
      var rest := h - {tx};
      assert |rest| == 0;
      assert h == rest + {tx};
    }
  }

  /**
   * Round trip: once `write(tx, x, v, _)` succeeds at a site, every later
   * `read` of x there reports tx as the lock holder, and tx itself reads v.
   */
  lemma WriteThenRead(s: SiteState, tx: int, x: int, v: int, holders: set<int>, reader: int, holder: int)
    requires Inv(s)
    requires SiteWrite(s, tx, x, v, holders).ok
    requires !(x % 2 == 0 && x in s.readRestricted)
    ensures var r := SiteRead(SiteWrite(s, tx, x, v, holders).site, reader, x, holder);
      r.ok && r.holder == tx && (reader == tx ==> r.value == v)
  {
  }

  /** The state after `abort(tx)`: tx's locks released, its writes rolled back. */
  function SiteAbort(s: SiteState, tx: int): SiteState
  {
    var modified := ReleasedWrites(s.locks, tx);
    s.(locks := Release(s.locks, tx),
       tentative := map y | y in s.tentative && y !in modified :: s.tentative[y],
       writeRestricted := s.writeRestricted - modified)
  }

  /** What `abort` does at one site. */
  lemma SiteAbortOutcome(s: SiteState, tx: int)
    ensures var r := SiteAbort(s, tx);
      !HoldsAny(r.locks, tx)
    ensures var r := SiteAbort(s, tx);
      forall y :: y in ReleasedWrites(s.locks, tx) ==> y !in r.tentative && y !in r.writeRestricted
    ensures var r := SiteAbort(s, tx);
      forall y :: y !in ReleasedWrites(s.locks, tx) ==>
      (y in r.tentative <==> y in s.tentative) && (y in r.writeRestricted <==> y in s.writeRestricted)
    ensures var r := SiteAbort(s, tx);
      forall y :: y in r.tentative ==> y in s.tentative && r.tentative[y] == s.tentative[y]
    ensures var r := SiteAbort(s, tx);
      r == s.(locks := Release(s.locks, tx), tentative := r.tentative, writeRestricted := r.writeRestricted)
    ensures var r := SiteAbort(s, tx);
      Inv(s) ==> Inv(r)
  {
  }

  /** The state after `commit(tx, affected)`. */
  function SiteCommit(s: SiteState, tx: int, affected: set<int>): SiteState
  {
    var moved := set y | y in affected && y in s.tentative;
    s.(locks := Release(s.locks, tx),
       committed := s.committed + map y | y in moved :: s.tentative[y],
       tentative := map y | y in s.tentative && y !in affected :: s.tentative[y],
       readRestricted := s.readRestricted - moved,
       writeRestricted := s.writeRestricted - affected)
  }

  /** What `commit` does at one site. */
  lemma SiteCommitOutcome(s: SiteState, tx: int, affected: set<int>)
    ensures var r := SiteCommit(s, tx, affected);
      !HoldsAny(r.locks, tx)
    // every affected variable with a tentative value becomes committed
    ensures var r := SiteCommit(s, tx, affected);
      forall y :: y in affected && y in s.tentative ==>
      y in r.committed && r.committed[y] == s.tentative[y] && y !in r.tentative && y !in r.readRestricted
    // the rest of the committed map is untouched
    ensures var r := SiteCommit(s, tx, affected);
      forall y :: !(y in affected && y in s.tentative) ==>
      (y in r.committed <==> y in s.committed) && (y in s.committed ==> r.committed[y] == s.committed[y])
    ensures var r := SiteCommit(s, tx, affected);
      forall y :: y !in affected ==> (y in r.tentative <==> y in s.tentative)
    ensures var r := SiteCommit(s, tx, affected);
      forall y :: y in r.tentative ==> y in s.tentative && r.tentative[y] == s.tentative[y]
    ensures var r := SiteCommit(s, tx, affected);
      forall y :: y in r.readRestricted <==> y in s.readRestricted && !(y in affected && y in s.tentative)
    // every affected variable loses its write restriction
    ensures var r := SiteCommit(s, tx, affected);
      r.writeRestricted == s.writeRestricted - affected
    ensures var r := SiteCommit(s, tx, affected);
      r.status == s.status && r.failedTime == s.failedTime && r.id == s.id
    ensures var r := SiteCommit(s, tx, affected);
      Inv(s) ==> Inv(r)
  {
  }

  /** The state after `fail(time)`; a DOWN site is left as it is. */
  function SiteFail(s: SiteState, time: int): SiteState
  {
    if s.status != Up then s
    else s.(locks := NoLocks, tentative := map[], status := Down, failedTime := time)
  }

  /** What `fail` does to a site. */
  lemma SiteFailOutcome(s: SiteState, time: int)
    ensures var r := SiteFail(s, time);
      s.status == Up ==>
      r == s.(status := Down, failedTime := time, tentative := map[], locks := NoLocks)
    ensures var r := SiteFail(s, time);
      s.status == Down ==> r == s
    ensures var r := SiteFail(s, time);
      Inv(s) ==> Inv(r)
  {
  }

  /** The state after `recover()`; an UP site is left as it is. */
  function SiteRecover(s: SiteState): SiteState
  {
    if s.status != Down then s
    else
      var t := SeedDefaults(s);
      t.(readRestricted := t.readRestricted + (set i | 2 <= i <= 20 && Replicated(i)), status := Up)
  }

  /** What `recover` does to a site. */
  lemma SiteRecoverOutcome(s: SiteState)
    ensures var r := SiteRecover(s);
      s.status == Up ==> r == s
    ensures var r := SiteRecover(s);
      s.status == Down ==>
      && r.status == Up
      && r.committed == SeedDefaults(s).committed
      && r.readRestricted == s.readRestricted + (set i | 2 <= i <= 20 && Replicated(i))
      && r == s.(status := Up, committed := r.committed, readRestricted := r.readRestricted)
    ensures var r := SiteRecover(s);
      Inv(s) ==> Inv(r)
  {
  }

  /**
   * Replicas of a variable need not agree after a commit. Site 2 fails,
   * T1 writes x2 = 5 (site 1 takes it, DOWN site 2 refuses it), site 2
   * recovers with x2 re-seeded to 20, and T1 commits at both: site 1 holds
   * 5 and site 2 keeps 20, still read-restricted there.
   */
  lemma RecoveredCopyDiverges(s1: SiteState, s2: SiteState)
    requires s1 == NewSite(1) && s2 == NewSite(2)
    ensures var down := SiteFail(s2, 1);
      SiteWrite(down, 1, 2, 5, {}) == WriteResult(down, false, {})
    ensures var w := SiteWrite(s1, 1, 2, 5, {});
      var c1 := SiteCommit(w.site, 1, {2});
      var c2 := SiteCommit(SiteRecover(SiteFail(s2, 1)), 1, {2});
      && w.ok && c1.status == Up && c2.status == Up
      && c1.committed[2] == 5 && c2.committed[2] == 20 && 2 in c2.readRestricted
  {
    var w := SiteWrite(s1, 1, 2, 5, {});
    assert w.site.tentative == s1.tentative[2 := 5];
    var d := SiteRecover(SiteFail(s2, 1));
    SiteRecoverOutcome(SiteFail(s2, 1));
    assert d.tentative == map[];
    assert Replicated(2);
  }

  /**
   * The loops of `initialize`: every even variable, then each odd variable
   * site `id` owns, is set to ten times its index.
   */
  method SeedValues(id: int, committed: map<int, int>) returns (c: map<int, int>)
    ensures forall j :: j in c <==> j in committed || Stores(id, j)
    ensures forall j :: j in c ==> c[j] == if Stores(id, j) then 10 * j else committed[j]
  {
    c := committed;
    // even (replicated) variables
    var i := 2;
    while i <= 20
      invariant 2 <= i <= 22 && i % 2 == 0
      invariant forall j :: j in c <==> j in committed || (Replicated(j) && j < i)
      invariant forall j :: j in c ==> c[j] == if Replicated(j) && j < i then 10 * j else committed[j]
    {
      forall j
        ensures (Replicated(j) && j < i + 2) <==> (Replicated(j) && j < i) || j == i
      {
        EvenStep(i, j);
      }
      c := c[i := 10 * i];
      i := i + 2;
    }
    // odd (non-replicated) variables this site owns
    i := 1;
    while i <= 19
      invariant 1 <= i <= 21 && i % 2 == 1
      invariant forall j :: j in c <==> j in committed || Replicated(j) || (OwnsOdd(id, j) && j < i)
      invariant forall j :: j in c ==>
        c[j] == if Replicated(j) || (OwnsOdd(id, j) && j < i) then 10 * j else committed[j]
    {
      forall j
        ensures (OwnsOdd(id, j) && j < i + 2) <==> (OwnsOdd(id, j) && j < i) || (j == i && id == i % 10 + 1)
      {
        OddStep(id, i, j);
      }
      if id == i % 10 + 1 {
        c := c[i := 10 * i];
      }
      i := i + 2;
    }
  }

  /** One round of the loop over even variables adds exactly the variable i. */
  lemma EvenStep(i: int, j: int)
    requires 2 <= i <= 20 && i % 2 == 0
    ensures (Replicated(j) && j < i + 2) <==> (Replicated(j) && j < i) || j == i
  {
  }

  /** One round of the loop over odd variables adds i exactly when site id owns it. */
  lemma OddStep(id: int, i: int, j: int)
    requires 1 <= i <= 19 && i % 2 == 1
    ensures (OwnsOdd(id, j) && j < i + 2) <==> (OwnsOdd(id, j) && j < i) || (j == i && id == i % 10 + 1)
  {
  }

  /**
   * The loop of `commit` over the affected variables: each one with a
   * tentative value is moved to the committed map and loses its read
   * restriction; each one loses its write restriction.
   */
  method InstallCommitted(committed: map<int, int>, tentative: map<int, int>,
                          readR: set<int>, writeR: set<int>, affected: set<int>)
    returns (c: map<int, int>, t: map<int, int>, rr: set<int>, wr: set<int>)
    ensures forall y :: y in c <==> y in committed || (y in affected && y in tentative)
    ensures forall y :: y in c ==>
      c[y] == (if y in affected && y in tentative then tentative[y] else committed[y])
    ensures forall y :: y in t <==> y in tentative && y !in affected
    ensures forall y :: y in t ==> t[y] == tentative[y]
    ensures forall y :: y in rr <==> y in readR && !(y in affected && y in tentative)
    ensures forall y :: y in wr <==> y in writeR && y !in affected
  {
    c, t, rr, wr := committed, tentative, readR, writeR;
    var pending := affected;
    while pending != {}
      invariant pending <= affected
      invariant forall y :: y in c <==> y in committed || (y in affected - pending && y in tentative)
      invariant forall y :: y in c ==>
        c[y] == (if y in affected - pending && y in tentative then tentative[y] else committed[y])
      invariant forall y :: y in t <==> y in tentative && y !in affected - pending
      invariant forall y :: y in t ==> t[y] == tentative[y]
      invariant forall y :: y in rr <==> y in readR && !(y in affected - pending && y in tentative)
      invariant forall y :: y in wr <==> y in writeR && y !in affected - pending
      decreases pending
    {
      NonEmptyHasMember(pending);
      var y :| y in pending;
      if y in t {
        c := c[y := t[y]];
        t := t - {y};
        rr := rr - {y};
      }
      wr := wr - {y};
      pending := pending - {y};
    }
  }

  /** The results of the `commit` loop are the fields `SiteCommit` describes. */
  lemma InstallMatches(s: SiteState, tx: int, affected: set<int>,
                       c: map<int, int>, t: map<int, int>, rr: set<int>, wr: set<int>)
    requires forall y :: y in c <==> y in s.committed || (y in affected && y in s.tentative)
    requires forall y :: y in c ==>
      c[y] == (if y in affected && y in s.tentative then s.tentative[y] else s.committed[y])
    requires forall y :: y in t <==> y in s.tentative && y !in affected
    requires forall y :: y in t ==> t[y] == s.tentative[y]
    requires forall y :: y in rr <==> y in s.readRestricted && !(y in affected && y in s.tentative)
    requires forall y :: y in wr <==> y in s.writeRestricted && y !in affected
    ensures var r := SiteCommit(s, tx, affected);
      c == r.committed && t == r.tentative && rr == r.readRestricted && wr == r.writeRestricted
  {
    var r := SiteCommit(s, tx, affected);
    assert c == r.committed by {
      assert forall y :: y in c <==> y in r.committed;
      assert forall y :: y in c ==> c[y] == r.committed[y];
    }
    assert t == r.tentative by {
      assert forall y :: y in t <==> y in r.tentative;
      assert forall y :: y in t ==> t[y] == r.tentative[y];
    }
    assert rr == r.readRestricted by {
      assert forall y :: y in rr <==> y in r.readRestricted;
    }
    assert wr == r.writeRestricted by {
      assert forall y :: y in wr <==> y in r.writeRestricted;
    }
  }

  /**
   * A site object. Its fields mirror SiteState; its lock manager is a
   * separate object that belongs to it alone.
   */
  class Site {
    const id: int
    const lockManager: LockManager
    var failedTime: int
    var siteStatus: Status
    var commitedVal: map<int, int>
    var curVal: map<int, int>
    var restrictedReadVariable: set<int>
    var restrictedWriteVariable: set<int>

    function Model(): SiteState
      reads this, lockManager
    {
      SiteState(id, siteStatus, failedTime, commitedVal, curVal,
                restrictedReadVariable, restrictedWriteVariable, lockManager.Table())
    }

    ghost predicate Valid()
      reads this, lockManager
    {
      Inv(Model())
    }

    constructor (id: int)
      ensures Valid() && Model() == NewSite(id) && fresh(lockManager)
    {
      this.id := id;
      lockManager := new LockManager();
      failedTime := 0;
      siteStatus := Up;
      commitedVal, curVal := map[], map[];
      restrictedReadVariable, restrictedWriteVariable := {}, {};
      new;
      Initialize();
    }

    /** Seeds each stored variable with its default value 10 * i. */
    method Initialize()
      modifies this
      ensures Model() == SeedDefaults(old(Model()))
    {
      commitedVal := SeedValues(id, commitedVal);
      ghost var want := SeedDefaults(old(Model())).committed;
      assert forall j :: j in commitedVal <==> j in want;
      assert forall j :: j in commitedVal ==> commitedVal[j] == want[j];
      assert commitedVal == want;
    }

    /**
     * Serves a read of `x` for `tx` unless the site is down, lacks `x`,
     * or `x` is replicated and still read-restricted after a recovery.
     */
    method Read(tx: int, x: int, holder: int) returns (ok: bool, holder': int, readVal: int)
      requires Valid()
      modifies this, lockManager
      ensures Valid()
      ensures Model() == SiteRead(old(Model()), tx, x, holder).site
      ensures ok == SiteRead(old(Model()), tx, x, holder).ok
      ensures holder' == SiteRead(old(Model()), tx, x, holder).holder
      ensures readVal == SiteRead(old(Model()), tx, x, holder).value
    {
      holder', readVal := holder, 0;
      if siteStatus == Down || x !in commitedVal {
        return false, holder', readVal;
      }
      if x % 2 == 0 && x in restrictedReadVariable {
        return false, holder', readVal;
      }
      holder' := lockManager.RequestRLock(tx, x, holder');
      if holder' == tx {
        if x !in curVal {
          curVal := curVal[x := 0];
        }
        readVal := curVal[x];
      } else {
        readVal := commitedVal[x];
      }
      ok := true;
    }

    /**
     * Attempts `x := v` for `tx`. `holders` accumulates the blocking
     * transactions reported by the sites tried before this one.
     */
    method Write(tx: int, x: int, v: int, holders: set<int>) returns (ok: bool, holders': set<int>)
      requires Valid()
      modifies this, lockManager
      ensures Valid()
      ensures Model() == SiteWrite(old(Model()), tx, x, v, holders).site
      ensures ok == SiteWrite(old(Model()), tx, x, v, holders).ok
      ensures holders' == SiteWrite(old(Model()), tx, x, v, holders).holders
    {
      holders' := holders;
      if siteStatus == Down || x !in commitedVal {
        return false, holders';
      }
      if x in restrictedWriteVariable {
        return false, holders';
      }
      holders' := lockManager.RequestWLock(tx, x, holders');
      // a transaction that is the only holder upgrades its lock
      if tx in holders' && |holders'| == 1 {
        lockManager.PromoteLock(tx, x);
        holders' := {};
      }
      if holders' == {} {
        curVal := curVal[x := v];
        return true, holders';
      }
      ok := false;
    }

    /** Releases tx's locks and rolls back every variable it write-locked. */
    method Abort(tx: int)
      requires Valid()
      modifies this, lockManager
      ensures Valid()
      ensures Model() == SiteAbort(old(Model()), tx)
    {
      ghost var want := SiteAbort(Model(), tx);
      var modifiedVar := lockManager.ReleaseLock(tx);
      var i := 0;
      while i < |modifiedVar|
        invariant 0 <= i <= |modifiedVar|
        invariant lockManager.Table() == want.locks
        invariant commitedVal == old(commitedVal) && siteStatus == old(siteStatus)
        invariant failedTime == old(failedTime) && restrictedReadVariable == old(restrictedReadVariable)
        invariant forall y :: y in curVal <==> y in old(curVal) && y !in modifiedVar[..i]
        invariant forall y :: y in curVal ==> curVal[y] == old(curVal)[y]
        invariant forall y :: y in restrictedWriteVariable <==>
          y in old(restrictedWriteVariable) && y !in modifiedVar[..i]
      {
        curVal := curVal - {modifiedVar[i]};
        restrictedWriteVariable := restrictedWriteVariable - {modifiedVar[i]};
        i := i + 1;
      }
      assert modifiedVar[..i] == modifiedVar;
      assert forall y :: y in curVal <==> y in want.tentative;
      assert forall y :: y in curVal ==> curVal[y] == want.tentative[y];
      assert curVal == want.tentative;
      assert forall y :: y in restrictedWriteVariable <==> y in want.writeRestricted;
      assert restrictedWriteVariable == want.writeRestricted;
    }

    /**
     * Releases tx's locks and installs its tentative value of every affected
     * variable this site has one for.
     */
    method Commit(tx: int, affected: set<int>)
      requires Valid()
      modifies this, lockManager
      ensures Valid()
      ensures Model() == SiteCommit(old(Model()), tx, affected)
    {
      ghost var s := Model();
      var _ := lockManager.ReleaseLock(tx);
      var c, t, rr, wr := InstallCommitted(commitedVal, curVal, restrictedReadVariable, restrictedWriteVariable, affected);
      InstallMatches(s, tx, affected, c, t, rr, wr);
      SiteCommitOutcome(s, tx, affected);
      commitedVal, curVal, restrictedReadVariable, restrictedWriteVariable := c, t, rr, wr;
    }

    /** Fails an UP site at `time`; returns false and changes nothing on a DOWN site. */
    method Fail(time: int) returns (ok: bool)
      requires Valid()
      modifies this, lockManager
      ensures Valid()
      ensures ok == (old(siteStatus) == Up)
      ensures Model() == SiteFail(old(Model()), time)
    {
      if siteStatus != Up {
        return false;
      }
      lockManager.ReleaseAllLock();
      curVal := map[];
      siteStatus := Down;
      failedTime := time;
      return true;
    }

    /**
     * Recovers a DOWN site: re-seeds the defaults and read-restricts every
     * replicated variable. Returns false and changes nothing on an UP site.
     */
    method Recover() returns (ok: bool)
      requires Valid()
      modifies this
      ensures Valid()
      ensures ok == (old(siteStatus) == Down)
      ensures Model() == SiteRecover(old(Model()))
    {
      if siteStatus != Down {
        return false;
      }
      Initialize();
      ghost var r0 := restrictedReadVariable;
      var i := 2;
      while i <= 20
        invariant 2 <= i <= 22 && i % 2 == 0
        invariant Model() == SeedDefaults(old(Model())).(readRestricted := restrictedReadVariable)
        invariant forall j :: j in restrictedReadVariable <==> j in r0 || (2 <= j < i && j % 2 == 0)
      {
        restrictedReadVariable := restrictedReadVariable + {i};
        i := i + 2;
      }
      ghost var want := r0 + (set j | 2 <= j <= 20 && Replicated(j));
      assert forall j :: j in restrictedReadVariable <==> j in want;
      assert restrictedReadVariable == want;
      siteStatus := Up;
      return true;
    }
  }
}
