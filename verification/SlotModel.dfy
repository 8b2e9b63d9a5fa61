/** The storage slots handed to a transaction, as values: what every operation of the nested
    read/write levels does to the shared slot vector and access log. */
module SlotModel {
  import opened Options

  type Address = nat
  const NULL_ADDRESS: Address := 0
  const SYSTEM_CODE: Address := 1

  type Bytes = seq<bv8>

  datatype SlotKey = SlotKey(owner: Address, contract: Address)

  /** A slot as handed over by the caller. */
  datatype Slot = ReadOnly(key: SlotKey, buffer: Bytes) | ReadWrite(key: SlotKey, buffer: Bytes)

  datatype SlotState =
    | Original(buffer: Bytes)
    | OriginalReadOnly(buffer: Bytes)
    | Modified(buffer: Bytes)
    | ModifiedReadOnly(buffer: Bytes)
    | OriginalReadWrite(buffer: Bytes, previous: Bytes)
    | ModifiedReadWrite(buffer: Bytes, previous: Bytes)
  {
    predicate Reading() { OriginalReadOnly? || ModifiedReadOnly? }
    predicate Writing() { OriginalReadWrite? || ModifiedReadWrite? }
    /** The slot carries the mark of an earlier committed write. */
    predicate Marked() { Modified? || ModifiedReadOnly? || ModifiedReadWrite? }
    /** What the slot falls back to when the current access is abandoned. */
    function Stored(): Bytes { if Writing() then previous else buffer }
  }

  datatype Entry = Entry(key: SlotKey, state: SlotState)
  datatype SlotAccess = SlotAccess(index: nat, readWrite: bool)

  /** A live read-write level: where its part of the access log begins. */
  datatype Level = Level(boundary: nat, originalParent: bool)

  datatype State = State(slots: seq<Entry>, access: seq<SlotAccess>, contracts: seq<Address>, levels: seq<Level>)
  {
    function Top(): Level
      requires levels != []
    {
      levels[|levels| - 1]
    }
  }

  /** Only draining the log past its end can panic; see `SlotRuns.EveryRunIsConsistent`. */
  datatype Outcome = Panic | Next(s: State)

  datatype Op =
    | Open
    | AddContract(owner: Address)
    | UseRo(key: SlotKey)
    | UseRw(key: SlotKey)
    | Write(index: nat, bytes: Bytes)
    | Reset
    | Drop

  // ---------- lookups ----------

  /** Index of the first entry with the given key. */
  function Position(slots: seq<Entry>, key: SlotKey): (r: Option<nat>)
    ensures r.Some? ==> r.value < |slots| && slots[r.value].key == key
    ensures r.Some? ==> forall j | 0 <= j < r.value :: slots[j].key != key
    ensures r.None? ==> forall j | 0 <= j < |slots| :: slots[j].key != key
  {
    if slots == [] then None
    else if slots[0].key == key then Some(0)
    else match Position(slots[1..], key)
      case None => None
      case Some(i) => Some(i + 1)
  }

  /** Mode of the first log entry for the given slot. */
  function AccessOf(access: seq<SlotAccess>, i: nat): Option<bool> {
    if access == [] then None
    else if access[0].index == i then Some(access[0].readWrite)
    else AccessOf(access[1..], i)
  }

  predicate MentionsNew(contracts: seq<Address>, key: SlotKey) {
    key.owner in contracts || key.contract in contracts
  }

  predicate MayCreate(s: State, key: SlotKey) {
    key.contract == NULL_ADDRESS || MentionsNew(s.contracts, key)
  }

  /** Answer of the read-only instances, which track nothing. */
  function PeekRo(s: State, key: SlotKey): (r: Option<Bytes>) {
    match Position(s.slots, key)
    case Some(i) =>
      if AccessOf(s.access, i) == Some(true) || s.slots[i].state.Writing() then None
      else Some(s.slots[i].state.buffer)
    case None => if MayCreate(s, key) then Some([]) else None
  }

  function GetCode(s: State, owner: Address): (r: Option<Bytes>) {
    match Position(s.slots, SlotKey(owner, SYSTEM_CODE))
    case Some(i) =>
      if SlotAccess(i, true) in s.access || s.slots[i].state.Writing() then None
      else Some(s.slots[i].state.buffer)
    case None => None
  }

  // ---------- operations on the innermost level ----------

  function Reading(st: SlotState): SlotState {
    match st
    case Original(b) => OriginalReadOnly(b)
    case Modified(b) => ModifiedReadOnly(b)
    case _ => st
  }

  function Writing(st: SlotState): SlotState {
    match st
    case Original(b) => OriginalReadWrite(b, b)
    case Modified(b) => ModifiedReadWrite(b, b)
    case _ => st
  }

  function UseRoStep(s: State, key: SlotKey): (r: (State, Option<Bytes>)) {
    match Position(s.slots, key)
    case Some(i) =>
      var held := AccessOf(s.access, i);
      if held == Some(true) then (s, None)
      else
        var access := if held.None? then s.access + [SlotAccess(i, false)] else s.access;
        var st := s.slots[i].state;
        (s.(access := access, slots := s.slots[i := Entry(key, Reading(st))]),
         if st.Writing() then None else Some(st.buffer))
    case None =>
      if !MayCreate(s, key) then (s, None)
      else (s.(access := s.access + [SlotAccess(|s.slots|, false)],
               slots := s.slots + [Entry(key, OriginalReadOnly([]))]),
            Some([]))
  }

  /** The access is logged before the slot's state is looked at, so a refused write can leave an
      entry behind. */
  function UseRwStep(s: State, key: SlotKey): (r: (State, Option<nat>)) {
    match Position(s.slots, key)
    case Some(i) =>
      if AccessOf(s.access, i).Some? then (s, None)
      else
        var st := s.slots[i].state;
        (s.(access := s.access + [SlotAccess(i, true)], slots := s.slots[i := Entry(key, Writing(st))]),
         if st.Reading() then None else Some(i))
    case None =>
      if !MayCreate(s, key) then (s, None)
      else (s.(access := s.access + [SlotAccess(|s.slots|, true)],
               slots := s.slots + [Entry(key, OriginalReadWrite([], []))]),
            Some(|s.slots|))
  }

  function WithBuffer(st: SlotState, bytes: Bytes): SlotState {
    match st
    case OriginalReadWrite(_, p) => OriginalReadWrite(bytes, p)
    case ModifiedReadWrite(_, p) => ModifiedReadWrite(bytes, p)
    case _ => st
  }

  /** `access_used_rw` followed by the caller replacing the contents of the buffer it got. */
  function WriteStep(s: State, index: nat, bytes: Bytes): State {
    if index < |s.slots| then
      s.(slots := s.slots[index := s.slots[index].(state := WithBuffer(s.slots[index].state, bytes))])
    else s
  }

  function Commit(st: SlotState): SlotState {
    match st
    case Original(b) => Original(b)
    case OriginalReadOnly(b) => Original(b)
    case Modified(b) => Modified(b)
    case ModifiedReadOnly(b) => Modified(b)
    case OriginalReadWrite(b, _) => Modified(b)
    case ModifiedReadWrite(b, _) => Modified(b)
  }

  function RollBack(st: SlotState): SlotState {
    match st
    case Original(b) => Original(b)
    case OriginalReadOnly(b) => Original(b)
    case Modified(b) => Modified(b)
    case ModifiedReadOnly(b) => Modified(b)
    case OriginalReadWrite(_, p) => Original(p)
    case ModifiedReadWrite(_, p) => Modified(p)
  }

  /** Commit or roll back exactly the slots mentioned in `drained`. */
  function Settle(slots: seq<Entry>, drained: seq<SlotAccess>, commit: bool): (r: seq<Entry>)
    ensures |r| == |slots|
  {
    seq(|slots|, i requires 0 <= i < |slots| =>
      if AccessOf(drained, i).None? then slots[i]
      else slots[i].(state := if commit then Commit(slots[i].state) else RollBack(slots[i].state)))
  }

  /** `Address::NULL` slots are temporary. */
  function DropTemporary(slots: seq<Entry>): seq<Entry> {
    if slots == [] then []
    else if slots[0].key.contract != NULL_ADDRESS then [slots[0]] + DropTemporary(slots[1..])
    else DropTemporary(slots[1..])
  }

  function DropStep(s: State): Outcome
    requires s.levels != []
  {
    var b := s.Top().boundary;
    if b > |s.access| then Panic
    else
      var settled := Settle(s.slots, s.access[b..], true);
      Next(State(if s.Top().originalParent then DropTemporary(settled) else settled,
                 s.access[..b], s.contracts, s.levels[..|s.levels| - 1]))
  }

  /** The boundary is zeroed whatever it was. */
  function ResetStep(s: State): Outcome
    requires s.levels != []
  {
    var b := s.Top().boundary;
    if b > |s.access| then Panic
    else Next(State(Settle(s.slots, s.access[b..], false), s.access[..b], s.contracts,
                    s.levels[|s.levels| - 1 := s.Top().(boundary := 0)]))
  }

  function OpenStep(s: State): State {
    s.(levels := s.levels + [if s.levels == [] then Level(0, true) else Level(|s.access|, false)])
  }

  function AddContractStep(s: State, owner: Address): State {
    if owner in s.contracts then s else s.(contracts := s.contracts + [owner])
  }

  /** One call. Exclusive borrowing means only the innermost level can be used, and that nothing but
      `Open` and `AddContract` can be called when no level is live. */
  function Step(s: State, op: Op): Outcome {
    if s.levels == [] && !op.Open? && !op.AddContract? then Next(s)
    else match op
      case Open => Next(OpenStep(s))
      case AddContract(owner) => Next(AddContractStep(s, owner))
      case UseRo(key) => Next(UseRoStep(s, key).0)
      case UseRw(key) => Next(UseRwStep(s, key).0)
      case Write(index, bytes) => Next(WriteStep(s, index, bytes))
      case Reset => ResetStep(s)
      case Drop => DropStep(s)
  }

  function Run(s: State, ops: seq<Op>): Outcome
    decreases |ops|
  {
    if ops == [] then Next(s)
    else match Step(s, ops[0])
      case Panic => Panic
      case Next(s') => Run(s', ops[1..])
  }

  // ---------- the collection at rest ----------

  function Seed(slots: seq<Slot>): (r: seq<Entry>) {
    if slots == [] then []
    else if slots[0].key.contract == NULL_ADDRESS then Seed(slots[1..])
    else
      var st := match slots[0]
        case ReadOnly(_, b) => OriginalReadOnly(b)
        case ReadWrite(_, b) => Original(b);
      [Entry(slots[0].key, st)] + Seed(slots[1..])
  }

  function New(slots: seq<Slot>): State {
    State(Seed(slots), [], [], [])
  }

  /** `iter` and `into_slots`: `None` when an arm marked unreachable is reached. */
  function Iter(slots: seq<Entry>): Option<seq<(SlotKey, Bytes)>> {
    if slots == [] then Some([])
    else match (slots[0].state, Iter(slots[1..]))
      case (Original(b), Some(rest)) => Some([(slots[0].key, b)] + rest)
      case (Modified(b), Some(rest)) => Some([(slots[0].key, b)] + rest)
      case _ => None
  }

  function IterModified(slots: seq<Entry>): Option<seq<(SlotKey, Bytes)>> {
    if slots == [] then Some([])
    else match (slots[0].state, IterModified(slots[1..]))
      case (Original(b), Some(rest)) => Some(rest)
      case (Modified(b), Some(rest)) => Some([(slots[0].key, b)] + rest)
      case _ => None
  }
}
