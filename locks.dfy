/**
 * The per-site lock manager: a shared (read) lock table mapping each
 * variable to the set of transactions holding it, and an exclusive (write)
 * lock table mapping each variable to its single holder.
 *
 * The tables are first described as values (LockTable and the functions
 * below); the class LockManager updates them in place and each of its
 * methods is proved against the corresponding function.
 */
module Locks {

  import opened Choice

  /** Both lock tables of one site. */
  datatype LockTable = LockTable(shared: map<int, set<int>>, exclusive: map<int, int>)

  const NoLocks: LockTable := LockTable(map[], map[])

  /** The shared holders of `x`, or none when the table has no entry. */
  function SharedHolders(t: LockTable, x: int): set<int> {
    if x in t.shared then t.shared[x] else {}
  }

  /**
   * The table invariant that every operation keeps: no variable is locked
   * both ways, and a shared entry is never left with no holder.
   */
  predicate Consistent(t: LockTable) {
    forall x :: x in t.shared ==> x !in t.exclusive && t.shared[x] != {}
  }

  /** `tx` holds some lock, shared or exclusive, in `t`. */
  predicate HoldsAny(t: LockTable, tx: int) {
    (exists x :: x in t.shared && tx in t.shared[x]) ||
    (exists x :: x in t.exclusive && t.exclusive[x] == tx)
  }

  /** The tables after `requestRLock(tx, x, _)`. */
  function GrantShared(t: LockTable, tx: int, x: int): (r: LockTable)
    // without a write lock, tx joins x's shared set, which is created if absent
    ensures x !in t.exclusive ==>
      && r.exclusive == t.exclusive
      && r.shared.Keys == t.shared.Keys + {x}
      && r.shared[x] == SharedHolders(t, x) + {tx}
      && (forall y :: y in t.shared && y != x ==> r.shared[y] == t.shared[y])
    // with a write lock, nothing is granted and nothing changes
    ensures x in t.exclusive ==> r == t
    ensures Consistent(t) ==> Consistent(r)
  {
    if x in t.exclusive then t
    else if x in t.shared then t.(shared := t.shared[x := t.shared[x] + {tx}])
    else t.(shared := t.shared[x := {tx}])
  }

  /** Whether `requestWLock` grants an exclusive lock on `x`. */
  predicate Free(t: LockTable, x: int) {
    x !in t.shared && x !in t.exclusive
  }

  /** The tables after `requestWLock(tx, x, _)`. */
  function GrantExclusive(t: LockTable, tx: int, x: int): (r: LockTable)
    ensures Free(t, x) ==> r.shared == t.shared && r.exclusive == t.exclusive[x := tx]
    ensures !Free(t, x) ==> r == t
    ensures Consistent(t) ==> Consistent(r)
  {
    if Free(t, x) then t.(exclusive := t.exclusive[x := tx]) else t
  }

  /** The holder set reported by `requestWLock(_, x, holders)`. */
  function WriteBlockers(t: LockTable, x: int, holders: set<int>): (h: set<int>)
    ensures holders <= h
    // granted: nothing is reported
    ensures Free(t, x) ==> h == holders
    // refused: every shared holder if there is a shared entry, else the writer
    ensures x in t.shared ==> h == holders + t.shared[x]
    ensures x !in t.shared && x in t.exclusive ==> h == holders + {t.exclusive[x]}
  {
    if Free(t, x) then holders
    else if x in t.shared then holders + t.shared[x]
    else holders + {t.exclusive[x]}
  }

  /** The tables after `promoteLock(tx, x)`: x's shared entry becomes tx's write lock. */
  function Promote(t: LockTable, tx: int, x: int): (r: LockTable)
    ensures x !in r.shared && x in r.exclusive && r.exclusive[x] == tx
    ensures forall y :: y != x ==> (y in r.shared <==> y in t.shared) && (y in r.exclusive <==> y in t.exclusive)
    ensures forall y :: y != x && y in t.shared ==> r.shared[y] == t.shared[y]
    ensures forall y :: y != x && y in t.exclusive ==> r.exclusive[y] == t.exclusive[y]
    ensures Consistent(t) ==> Consistent(r)
  {
    LockTable(t.shared - {x}, t.exclusive[x := tx])
  }

  /** The variables whose write lock `tx` holds: the result of `releaseLock(tx)`. */
  function ReleasedWrites(t: LockTable, tx: int): (vs: set<int>)
    ensures forall y :: y in vs <==> y in t.exclusive && t.exclusive[y] == tx
  {
    set y | y in t.exclusive && t.exclusive[y] == tx
  }

  /** The tables after `releaseLock(tx)`. */
  function Release(t: LockTable, tx: int): (r: LockTable)
    // tx holds nothing afterwards
    ensures !HoldsAny(r, tx)
    // shared sets emptied by the release are dropped
    ensures forall y :: y in r.shared ==> r.shared[y] != {}
    // every shared set loses tx and nothing else
    ensures forall y :: SharedHolders(r, y) == SharedHolders(t, y) - {tx}
    // other transactions keep exactly their write locks; tx's are gone
    ensures forall y :: y in r.exclusive <==> y in t.exclusive && y !in ReleasedWrites(t, tx)
    ensures forall y :: y in r.exclusive ==> r.exclusive[y] == t.exclusive[y]
    ensures Consistent(t) ==> Consistent(r)
  {
    LockTable(
      map y | y in t.shared && t.shared[y] - {tx} != {} :: t.shared[y] - {tx},
      map y | y in t.exclusive && t.exclusive[y] != tx :: t.exclusive[y])
  }

  /**
   * The first loop of `releaseLock`: removes `tx` from every shared set and
   * lists the variables whose set it left empty.
   */
  method DropHolder(shared: map<int, set<int>>, tx: int) returns (r: map<int, set<int>>, emptied: seq<int>)
    ensures r.Keys == shared.Keys
    ensures forall y :: y in r ==> r[y] == shared[y] - {tx}
    ensures forall y :: y in emptied <==> y in shared && shared[y] - {tx} == {}
  {
    r, emptied := shared, [];
    var pending := shared.Keys;
    while pending != {}
      invariant pending <= shared.Keys == r.Keys
      invariant forall y :: y in r ==> r[y] == if y in pending then shared[y] else shared[y] - {tx}
      invariant forall y :: y in emptied <==> y in shared && y !in pending && shared[y] - {tx} == {}
      decreases pending
    {
      NonEmptyHasMember(pending);
      var y :| y in pending;
      r := r[y := r[y] - {tx}];
      if r[y] == {} {
        emptied := emptied + [y];
      }
      pending := pending - {y};
    }
  }

  /** Erases each listed key from `m`, one at a time. */
  method EraseKeys<V>(m: map<int, V>, keys: seq<int>) returns (r: map<int, V>)
    ensures forall y :: y in r <==> y in m && y !in keys
    ensures forall y :: y in r ==> r[y] == m[y]
  {
    r := m;
    var i := 0;
    while i < |keys|
      invariant 0 <= i <= |keys|
      invariant forall y :: y in r <==> y in m && y !in keys[..i]
      invariant forall y :: y in r ==> r[y] == m[y]
    {
      r := r - {keys[i]};
      i := i + 1;
    }
    assert keys[..i] == keys;
  }

  /**
   * The second loop of `releaseLock`: the variables whose write lock `tx`
   * holds, each once, in the table's iteration order.
   */
  method KeysHeldBy(exclusive: map<int, int>, tx: int) returns (vars: seq<int>)
    ensures forall i, j :: 0 <= i < j < |vars| ==> vars[i] != vars[j]
    ensures forall y :: y in vars <==> y in exclusive && exclusive[y] == tx
  {
    vars := [];
    var pending := exclusive.Keys;
    while pending != {}
      invariant pending <= exclusive.Keys
      invariant forall i, j :: 0 <= i < j < |vars| ==> vars[i] != vars[j]
      invariant forall y :: y in vars <==> y in exclusive && y !in pending && exclusive[y] == tx
      decreases pending
    {
      NonEmptyHasMember(pending);
      var y :| y in pending;
      if exclusive[y] == tx {
        vars := vars + [y];
      }
      pending := pending - {y};
    }
  }

  /**
   * One site's lock manager. Both tables are hash maps in place; iteration
   * over them happens in an unspecified order, modelled by arbitrary choice.
   */
  class LockManager {
    var rLockTable: map<int, set<int>>
    var wLockTable: map<int, int>

    function Table(): LockTable
      reads this
    {
      LockTable(rLockTable, wLockTable)
    }

    constructor ()
      ensures Table() == NoLocks
    {
      rLockTable, wLockTable := map[], map[];
    }

    /**
     * Grants a shared lock on `x` unless `x` is write-locked; in that case
     * reports the writer in `holder'` (even when the writer is `tx`), and
     * otherwise hands `holder` back untouched.
     */
    method RequestRLock(tx: int, x: int, holder: int) returns (holder': int)
      modifies this
      ensures Table() == GrantShared(old(Table()), tx, x)
      ensures holder' == if x in old(wLockTable) then old(wLockTable)[x] else holder
    {
      holder' := holder;
      if x !in wLockTable {
        if x in rLockTable {
          rLockTable := rLockTable[x := rLockTable[x] + {tx}];
        } else {
          rLockTable := rLockTable[x := {tx}];
        }
        return;
      }
      holder' := wLockTable[x];
    }

    /**
     * Grants an exclusive lock on `x` only when `x` is in neither table;
     * otherwise adds the current holders to `holders`.
     */
    method RequestWLock(tx: int, x: int, holders: set<int>) returns (holders': set<int>)
      modifies this
      ensures Table() == GrantExclusive(old(Table()), tx, x)
      ensures holders' == WriteBlockers(old(Table()), x, holders)
    {
      holders' := holders;
      if x !in rLockTable && x !in wLockTable {
        wLockTable := wLockTable[x := tx];
        return;
      }
      if x in rLockTable {
        holders' := holders' + rLockTable[x];
      } else {
        holders' := holders' + {wLockTable[x]};
      }
    }

    /** Replaces the shared entry of `x` by a write lock of `tx`, unconditionally. */
    method PromoteLock(tx: int, x: int)
      modifies this
      ensures Table() == Promote(old(Table()), tx, x)
    {
      rLockTable := rLockTable - {x};
      wLockTable := wLockTable[x := tx];
    }

    /**
     * Releases every lock of `tx` and returns the variables whose write
     * lock it held, each once, in the table's iteration order.
     */
    method ReleaseLock(tx: int) returns (modifiedVar: seq<int>)
      modifies this
      ensures Table() == Release(old(Table()), tx)
      ensures forall i, j :: 0 <= i < j < |modifiedVar| ==> modifiedVar[i] != modifiedVar[j]
      ensures forall y :: y in modifiedVar <==> y in ReleasedWrites(old(Table()), tx)
    {
      ghost var released := Release(Table(), tx);
      var tmp;
      rLockTable, tmp := DropHolder(rLockTable, tx);
      rLockTable := EraseKeys(rLockTable, tmp);
      assert forall y :: y in rLockTable <==> y in released.shared;
      assert forall y :: y in rLockTable ==> rLockTable[y] == released.shared[y];
      assert rLockTable == released.shared;
      modifiedVar := KeysHeldBy(wLockTable, tx);
      wLockTable := EraseKeys(wLockTable, modifiedVar);
      assert forall y :: y in wLockTable <==> y in released.exclusive;
      assert forall y :: y in wLockTable ==> wLockTable[y] == released.exclusive[y];
      assert wLockTable == released.exclusive;
    }

    /** Empties both tables (used when the site fails). */
    method ReleaseAllLock()
      modifies this
      ensures Table() == NoLocks
    {
      rLockTable := map[];
      wLockTable := map[];
    }
  }
}
