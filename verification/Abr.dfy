/**
 The A/B/R operations.

 `Exec` gives the reply and the storage that each operation leaves, for every storage and every
 way its reads and writes may fail.  A failing write leaves the storage as it was.
 */
module Abr {
  import opened Basics
  import opened Crc
  import opened AbrMetadata

  /** How one operation's storage accesses fare: `None` is success.  No operation writes more than twice. */
  datatype Io = Io(read: Option<Error>, write1: Option<Error>, write2: Option<Error>)

  const WORKING := Io(None, None, None)

  datatype Op =
    | GetBootSlot(update: bool)
    | MarkActive(slot: SlotIndex)
    | MarkUnbootable(slot: SlotIndex)
    | MarkSuccessful(slot: SlotIndex)
    | SetOneShotRecovery(enable: bool)
    | SetOneShotBootloader(enable: bool)
    | TakeOneShotFlags
    | TakeOneShotBootloader
    | GetSlotInfo(slot: SlotIndex)
    | GetLastMarkedActive

  datatype SlotState = Successful | Bootable(tries: Byte) | Unbootable

  datatype Reply =
    | Boot(slot: SlotIndex, successful: bool)
    | Done
    | Flags(flags: Byte)
    | Flag(flag: bool)
    | Info(state: SlotState, active: bool)
    | LastActive(slot: SlotIndex)
    | Failed(error: Error)

  // ----- What the operations do ----------------------------------------------------------------

  function ReadSpec(s: Image, fault: Option<Error>): Result<Metadata> {
    if fault.Some? then Err(fault.value) else Deserialize(s)
  }

  /** Any error but the two that are passed on is answered with default metadata. */
  predicate Defaults(e: Error) {
    e != Other && e != UnsupportedVersion
  }

  /** Metadata in normal form, and the metadata exactly as read. */
  function LoadSpec(s: Image, fault: Option<Error>): Result<(Metadata, Metadata)> {
    match ReadSpec(s, fault)
    case Ok(d) => Ok((d.(boot := d.boot.Normalize()), d))
    case Err(e) => if Defaults(e) then Ok((DEFAULT.(boot := DEFAULT_STATE.Normalize()), NULL)) else Err(e)
  }

  function SaveSpec(s: Image, d: Metadata, fault: Option<Error>): (Result<()>, Image) {
    if fault.Some? then (Err(fault.value), s) else (Ok(()), Serialize(d))
  }

  function SaveIfChangedSpec(s: Image, d: Metadata, orig: Metadata, fault: Option<Error>): (Result<()>, Image) {
    if d == orig then (Ok(()), s) else SaveSpec(s, d, fault)
  }

  /** One try fewer; the program stops dead if there is none left. */
  function Burn(s: SlotData): SlotData
    requires s.tries > 0
  {
    s.(tries := s.tries - 1)
  }

  /** The slot about to be booted is charged for the attempt, unless it is known to be good. */
  function ChargeAttempt(d: BootState): BootState
    requires d.Normal()
  {
    var slot := d.ActiveSlot();
    if slot != R && !d.Slot(slot).MarkedSuccessful() then d.With(slot, Burn(d.Slot(slot))) else d
  }

  function Forgotten(s: SlotData): SlotData {
    if s.MarkedSuccessful() then s.(tries := MAX_TRIES, successful := 0) else s
  }

  /** Only the slot about to be booted keeps its mark of success. */
  function AfterBoot(d: BootState): BootState
    requires d.Normal()
  {
    var slot := d.ActiveSlot();
    var c := ChargeAttempt(d);
    c.(a := if slot == A then c.a else Forgotten(c.a), b := if slot == B then c.b else Forgotten(c.b))
  }

  function Choice(d: BootState): Reply {
    var slot := d.ActiveSlot();
    Boot(slot, slot != R && d.Slot(slot).MarkedSuccessful())
  }

  function BootSpec(s: Image, update: bool, io: Io): (Reply, Image) {
    match LoadSpec(s, io.read)
    case Err(_) => (Boot(R, false), s)
    case Ok((d, orig)) =>
      LoadIsNormal(s, io.read);
      if !update then (Choice(d.boot), s)
      else if d.boot.OneShotRecovery() then OneShotSpec(s, d, orig, io)
      else (Choice(d.boot), SaveIfChangedSpec(s, d.(boot := AfterBoot(d.boot)), orig, io.write1).1)
  }

  /** A request for recovery is honoured only once it has been struck from storage. */
  function OneShotSpec(s: Image, d: Metadata, orig: Metadata, io: Io): (Reply, Image)
    requires d.boot.Normal()
  {
    var cleared := d.(boot := d.boot.SetOneShotRecovery(false));
    if io.write1.None? then (Boot(R, false), SaveSpec(s, cleared, None).1)
    else
      // The failed save has already updated the checksum field.
      var boot := cleared.boot.SetOneShotRecovery(true);
      (Choice(boot), SaveIfChangedSpec(s, Sealed(cleared).(boot := AfterBoot(boot)), orig, io.write2).1)
  }

  /** What an operation other than booting wants stored, and its reply once that is done. */
  function EditSpec(op: Op, d: BootState): Result<(BootState, Reply)>
    requires !op.GetBootSlot?
  {
    match op
    case MarkActive(slot) =>
      if slot == R then Err(InvalidInput) else Ok((Activate(d, slot), Done))
    case MarkUnbootable(slot) =>
      if slot == R then Err(InvalidInput) else Ok((d.With(slot, d.Slot(slot).Unbootable()), Done))
    case MarkSuccessful(slot) =>
      if slot == R || !d.Slot(slot).Bootable() then Err(InvalidInput) else Ok((Succeed(d, slot), Done))
    case SetOneShotRecovery(enable) => Ok((d.SetOneShotRecovery(enable), Done))
    case SetOneShotBootloader(enable) => Ok((d.SetOneShotBootloader(enable), Done))
    case TakeOneShotFlags => Ok((d.(oneShot := 0), Flags(d.oneShot)))
    case TakeOneShotBootloader =>
      Ok((d.SetOneShotBootloader(false), Flag(d.oneShot & ONE_SHOT_BOOTLOADER != 0)))
    case GetSlotInfo(slot) => Ok((d, InfoSpec(d, slot)))
    case GetLastMarkedActive => Ok((d, LastActive(LastMarkedActive(d))))
  }

  /** Top priority, all tries, not yet successful; the other slot gives way. */
  function Activate(d: BootState, slot: SlotIndex): BootState
    requires slot != R
  {
    var s := d.Slot(slot).(priority := MAX_PRIORITY, tries := MAX_TRIES, successful := 0);
    var o := d.Slot(slot.Counterpart());
    d.With(slot, s).With(slot.Counterpart(), o.(priority := Lesser(o.priority, MAX_PRIORITY - 1)))
  }

  function Succeed(d: BootState, slot: SlotIndex): BootState
    requires slot != R
  {
    var s := d.Slot(slot).(tries := 0, successful := 1);
    var o := d.Slot(slot.Counterpart());
    d.With(slot, s).With(slot.Counterpart(), if o.Bootable() then o.(tries := MAX_TRIES, successful := 0) else o)
  }

  function InfoSpec(d: BootState, slot: SlotIndex): (r: Reply)
    ensures r.Info?
  {
    Info(
      if slot == R || d.Slot(slot).MarkedSuccessful() then Successful
      else if d.Slot(slot).Bootable() then Bootable(d.Slot(slot).tries)
      else Unbootable,
      d.ActiveSlot() == slot)
  }

  function LastMarkedActive(d: BootState): SlotIndex {
    if d.b.priority > d.a.priority then B else A
  }

  predicate ReadOnly(op: Op) {
    op.GetSlotInfo? || op.GetLastMarkedActive?
  }

  /** Slot R is refused before anything is read. */
  predicate RefusesSlot(op: Op) {
    (op.MarkActive? || op.MarkUnbootable? || op.MarkSuccessful?) && op.slot == R
  }

  function StoreSpec(edit: Result<(BootState, Reply)>, readOnly: bool, io: Io, s: Image, d: Metadata, orig: Metadata)
    : (Reply, Image)
  {
    match edit
    case Err(e) => (Failed(e), s)
    case Ok((boot, reply)) =>
      if readOnly then (reply, s) else
      var (saved, s') := SaveIfChangedSpec(s, d.(boot := boot), orig, io.write1);
      (if saved.Ok? then reply else Failed(saved.error), s')
  }

  function Exec(op: Op, io: Io, s: Image): (Reply, Image) {
    if op.GetBootSlot? then BootSpec(s, op.update, io)
    else if RefusesSlot(op) then (Failed(InvalidInput), s)
    else
      match LoadSpec(s, io.read)
      case Err(e) => (Failed(e), s)
      case Ok((d, orig)) => StoreSpec(EditSpec(op, d.boot), ReadOnly(op), io, s, d, orig)
  }

  lemma LoadIsNormal(s: Image, fault: Option<Error>)
    ensures LoadSpec(s, fault).Ok? ==> LoadSpec(s, fault).value.0.boot.Normal()
  {
    var d := if ReadSpec(s, fault).Ok? then ReadSpec(s, fault).value.boot else DEFAULT_STATE;
    NormalizeIsProjection(d.a);
    NormalizeIsProjection(d.b);
  }
}
