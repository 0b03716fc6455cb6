/** The registry's on-chain records: Handle slot values and the action logs of its spends. */
module Registry {
  import opened Common

  /**
   A 32-byte hash as the big-endian number it spells, so that `<` is the byte order the program
   and its database sort by. Hashing is taken to be injective: a value stands for its hash.
   */
  type Bytes32 = nat

  const ZERO: Bytes32 := 0

  datatype SlotValue = SlotValue(
    counter: nat, handle: Bytes32, left: Bytes32, right: Bytes32,
    expiration: u64, owner: Bytes32, resolved: Bytes32)
  {
    predicate Names(launcher: Bytes32) {
      owner == launcher || resolved == launcher
    }
  }

  /** Puzzle hashes an action commits to; the resolved one is absent when it equals the owner's. */
  datatype PuzzleHashes = PuzzleHashes(
    ownerFull: Bytes32, ownerInner: Bytes32, resolvedFull: Option<Bytes32>, resolvedInner: Bytes32)

  datatype Purchase = Purchase(handle: string, secret: Bytes32, totalPrice: u64)

  datatype UpdateSlot = UpdateSlot(
    handle: Bytes32, newOwner: Bytes32, newResolved: Bytes32, minHeight: u32, initiator: Bytes32)

  datatype ActionLog =
    | RegisterLog(spentLeft: SlotValue, spentRight: SlotValue, createdLeft: SlotValue,
                  createdHandle: SlotValue, createdRight: SlotValue, purchase: Purchase, hashes: PuzzleHashes)
    | ExpireLog(spent: SlotValue, created: SlotValue, purchase: Purchase, hashes: PuzzleHashes)
    | ExtendLog(spent: SlotValue, created: SlotValue)
    | OracleLog(spent: SlotValue, created: SlotValue)
    | InitiateUpdateLog(spent: SlotValue, created: SlotValue, update: UpdateSlot)
    | ExecuteUpdateLog(spent: SlotValue, created: SlotValue, spentUpdate: UpdateSlot, hashes: PuzzleHashes)
    | RefundLog(spentSlot: Option<SlotValue>, createdSlot: Option<SlotValue>)
    | DelegatedStateLog

  function OptSlot(o: Option<SlotValue>): seq<SlotValue> {
    match o
    case None => []
    case Some(v) => [v]
  }

  function CreatedBy(log: ActionLog): seq<SlotValue> {
    match log
    case RegisterLog(_, _, l, h, r, _, _) => [l, h, r]
    case ExpireLog(_, c, _, _) => [c]
    case ExtendLog(_, c) => [c]
    case OracleLog(_, c) => [c]
    case InitiateUpdateLog(_, c, _) => [c]
    case ExecuteUpdateLog(_, c, _, _) => [c]
    case RefundLog(_, c) => OptSlot(c)
    case DelegatedStateLog => []
  }

  function SpentBy(log: ActionLog): seq<SlotValue> {
    match log
    case RegisterLog(l, r, _, _, _, _, _) => [l, r]
    case ExpireLog(s, _, _, _) => [s]
    case ExtendLog(s, _) => [s]
    case OracleLog(s, _) => [s]
    case InitiateUpdateLog(s, _, _) => [s]
    case ExecuteUpdateLog(s, _, _, _) => [s]
    case RefundLog(s, _) => OptSlot(s)
    case DelegatedStateLog => []
  }

  function Created(logs: seq<ActionLog>): seq<SlotValue> {
    if logs == [] then [] else Created(logs[..|logs| - 1]) + CreatedBy(logs[|logs| - 1])
  }

  function Spent(logs: seq<ActionLog>): seq<SlotValue> {
    if logs == [] then [] else Spent(logs[..|logs| - 1]) + SpentBy(logs[|logs| - 1])
  }

  /** The spent and the created value of an action that replaces one slot. */
  function Replacement(log: ActionLog): Option<(SlotValue, SlotValue)> {
    match log
    case ExpireLog(s, c, _, _) => Some((s, c))
    case ExtendLog(s, c) => Some((s, c))
    case OracleLog(s, c) => Some((s, c))
    case InitiateUpdateLog(s, c, _) => Some((s, c))
    case ExecuteUpdateLog(s, c, _, _) => Some((s, c))
    case RefundLog(Some(s), Some(c)) => Some((s, c))
    case _ => None
  }
}
