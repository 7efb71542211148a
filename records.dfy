/**
 * The records exchanged between the parser and the transaction manager:
 * operations read from the script, and the per-transaction bookkeeping the
 * manager keeps in its registry.
 */
module Records {

  datatype Action = Read | Write | Begin | BeginRO | End | Recover | Fail | Dump

  /** One script instruction; fields an action does not use stay at -1. */
  datatype Operation = Operation(
    action: Action,
    transactionId: int,
    varIdx: int,
    val: int,
    siteId: int,
    timeStamp: int)

  /** An operation of the given action with every other field at its default. */
  function Blank(action: Action): (op: Operation)
    ensures op.action == action && op.timeStamp == 0
    ensures op.transactionId == -1 && op.varIdx == -1 && op.val == -1 && op.siteId == -1
  {
    Operation(action, -1, -1, -1, -1, 0)
  }

  /**
   * RUNNING, WAITING, ABORTED and COMMITED as in the program. `Unset` is
   * the status of a record created by default insertion into the registry,
   * whose status field is never initialised.
   */
  datatype Status = Running | Waiting | Aborted | Committed | Unset

  /**
   * A registry entry: identity, start time, whether it is read-only, its
   * status, the variables it wrote, the time of its last read and write of
   * each variable, and (for read-only transactions) the committed values
   * it captured when it began.
   */
  datatype Transaction = Transaction(
    id: int,
    startTime: int,
    isReadOnly: bool,
    status: Status,
    affected: set<int>,
    readHistory: map<int, int>,
    writeHistory: map<int, int>,
    snapshot: map<int, int>)

  /** A transaction as `begin` creates it. */
  function NewTransaction(id: int, startTime: int, isReadOnly: bool): (t: Transaction)
    ensures t.id == id && t.startTime == startTime && t.isReadOnly == isReadOnly
    ensures t.status == Running
    ensures t.affected == {} && t.readHistory == map[] && t.writeHistory == map[] && t.snapshot == map[]
  {
    Transaction(id, startTime, isReadOnly, Running, {}, map[], map[], map[])
  }

  /** The record a lookup of an unknown id inserts. */
  const DefaultTransaction: Transaction :=
    Transaction(0, 0, false, Unset, {}, map[], map[], map[])

  /** The registry after a lookup of `id`: unknown ids get a default record. */
  function Touch(txns: map<int, Transaction>, id: int): (r: map<int, Transaction>)
    ensures r.Keys == txns.Keys + {id}
    ensures forall k :: k in txns ==> r[k] == txns[k]
    ensures id !in txns ==> r[id] == DefaultTransaction
  {
    if id in txns then txns else txns[id := DefaultTransaction]
  }

  /** The record a lookup of `id` sees. */
  function Lookup(txns: map<int, Transaction>, id: int): (t: Transaction)
    ensures t == if id in txns then txns[id] else DefaultTransaction
  {
    Touch(txns, id)[id]
  }
}
