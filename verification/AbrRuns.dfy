/** What holds of the A/B/R operations over whole runs, from any storage and under any faults. */
module AbrRuns {
  import opened Basics
  import opened Crc
  import opened AbrMetadata
  import opened Abr

  // ----- The stored state, seen through a working read ---------------------------------------

  /** What a working read makes of the storage; `None` is metadata of an unsupported version. */
  function Effective(s: Image): Option<BootState> {
    match LoadSpec(s, None)
    case Ok((d, _)) => Some(d.boot)
    case Err(_) => None
  }

  /** What an operation that read `d` stores, if it gets that far and its write succeeds. */
  function Goal(op: Op, io: Io, d: BootState): Option<BootState>
    requires d.Normal()
  {
    if op.GetBootSlot? then
      if !op.update then None
      else if d.OneShotRecovery() && io.write1.None? then Some(d.SetOneShotRecovery(false))
      else if (if d.OneShotRecovery() then io.write2 else io.write1).None? then Some(AfterBoot(d))
      else None
    else if RefusesSlot(op) then None
    else EditGoal(EditSpec(op, d), ReadOnly(op), io)
  }

  function EditGoal(edit: Result<(BootState, Reply)>, readOnly: bool, io: Io): Option<BootState> {
    if edit.Err? || readOnly || io.write1.Some? then None else Some(edit.value.0)
  }

  /** What an operation reads when the effective state is `e`. */
  function Seen(io: Io, e: Option<BootState>): Option<BootState> {
    if io.read.None? then e
    else if Defaults(io.read.value) then Some(DEFAULT_STATE)
    else None
  }

  predicate NormalView(e: Option<BootState>) {
    e.Some? ==> e.value.Normal()
  }

  /** The operations as steps on the effective state alone. */
  function Next(op: Op, io: Io, e: Option<BootState>): (e': Option<BootState>)
    requires NormalView(e)
    ensures NormalView(e')
  {
    match Seen(io, e)
    case None => e
    case Some(d) =>
      GoalIsNormal(op, io, d);
      if Goal(op, io, d).Some? then Goal(op, io, d) else e
  }

  lemma ActiveSlotHasTries(d: BootState)
    requires d.Normal()
    ensures d.ActiveSlot() != R ==>
              && d.Slot(d.ActiveSlot()).Bootable()
              && (d.Slot(d.ActiveSlot()).MarkedSuccessful() || d.Slot(d.ActiveSlot()).tries > 0)
  {
  }

  lemma AfterBootIsNormal(d: BootState)
    requires d.Normal()
    ensures AfterBoot(d).Normal()
  {
  }

  lemma EditIsNormal(op: Op, d: BootState)
    requires d.Normal() && !op.GetBootSlot?
    ensures EditSpec(op, d).Ok? ==> EditSpec(op, d).value.0.Normal()
  {
  }

  lemma GoalIsNormal(op: Op, io: Io, d: BootState)
    requires d.Normal()
    ensures Goal(op, io, d).Some? ==> Goal(op, io, d).value.Normal()
  {
    if op.GetBootSlot? {
      AfterBootIsNormal(d);
    } else {
      EditIsNormal(op, d);
    }
  }

  lemma EffectiveIsNormal(s: Image)
    ensures NormalView(Effective(s))
  {
    hide Deserialize, SlotData.Normal;
    LoadIsNormal(s, None);
  }

  /** `orig` is no metadata at all, or what the storage holds. */
  predicate Holds(s: Image, orig: Metadata) {
    Supported(orig) ==> Serialize(orig) == s
  }

  lemma LoadedIsSupported(s: Image, fault: Option<Error>)
    requires LoadSpec(s, fault).Ok?
    ensures var (d, orig) := LoadSpec(s, fault).value;
            Supported(d) && d.boot.Normal() && Holds(s, orig)
  {
    hide Parse, Crc32, Serialize, SlotData.Normal, Sealed;
    LoadIsNormal(s, fault);
    if fault.None? && Deserialize(s).Ok? {
      SerializeDeserialize(s);
    }
  }

  lemma SeenIsLoaded(s: Image, io: Io)
    ensures match LoadSpec(s, io.read)
            case Ok((d, _)) => Seen(io, Effective(s)) == Some(d.boot)
            case Err(_) => Seen(io, Effective(s)) == None
  {
    hide Deserialize;
  }

  /** The storage holds valid metadata whose state is `g`, normalized or not. */
  predicate Stores(s: Image, g: BootState) {
    Deserialize(s).Ok? && Deserialize(s).value.boot == g && Effective(s) == Some(g)
  }

  /** Saving metadata in normal form makes its state the effective one. */
  lemma SavedIsEffective(d: Metadata)
    requires d.boot.Normal() && Supported(d)
    ensures Stores(Serialize(d), d.boot)
  {
    hide Crc32, Covered, Serialize, SlotData.Normal, SlotData.Normalize;
    DeserializeSerialize(d);
    NormalizeIsProjection(d.boot.a);
    NormalizeIsProjection(d.boot.b);
  }

  /** Leaving out the write of unchanged metadata makes no difference. */
  lemma SaveIfChangedIsSave(s: Image, d: Metadata, orig: Metadata, write: Option<Error>)
    requires Holds(s, orig) && Supported(d)
    ensures SaveIfChangedSpec(s, d, orig, write).1 == SaveSpec(s, d, write).1
  {
    hide Serialize;
  }

  lemma IgnoredRequestIsKept(d: BootState)
    requires d.OneShotRecovery()
    ensures d.SetOneShotRecovery(false).SetOneShotRecovery(true) == d
    ensures !d.SetOneShotRecovery(false).OneShotRecovery()
  {
  }

  /** The storage left by an operation: exactly its goal, or untouched. */
  predicate Leaves(goal: Option<BootState>, s: Image, s': Image) {
    if goal.None? then s' == s else Stores(s', goal.value)
  }

  lemma SaveEffect(s: Image, d: Metadata, orig: Metadata, write: Option<Error>)
    requires Holds(s, orig) && Supported(d) && d.boot.Normal()
    ensures var s' := SaveIfChangedSpec(s, d, orig, write).1;
            if write.None? then Stores(s', d.boot) else s' == s
  {
    hide Stores, Serialize, Holds, Supported;
    SaveIfChangedIsSave(s, d, orig, write);
    SavedIsEffective(d);
  }

  lemma OneShotLeavesGoal(s: Image, d: Metadata, orig: Metadata, io: Io)
    requires Holds(s, orig) && Supported(d) && d.boot.Normal() && d.boot.OneShotRecovery()
    ensures Leaves(Goal(GetBootSlot(true), io, d.boot), s, OneShotSpec(s, d, orig, io).1)
  {
    hide Stores, Serialize, Crc32, Covered, AfterBoot, Holds, SaveIfChangedSpec;
    IgnoredRequestIsKept(d.boot);
    AfterBootIsNormal(d.boot);
    var cleared := d.(boot := d.boot.SetOneShotRecovery(false));
    if io.write1.None? {
      SavedIsEffective(cleared);
    } else {
      SaveEffect(s, Sealed(cleared).(boot := AfterBoot(d.boot)), orig, io.write2);
    }
  }

  lemma BootLeavesGoal(s: Image, update: bool, io: Io)
    requires LoadSpec(s, io.read).Ok? && LoadSpec(s, io.read).value.0.boot.Normal()
    ensures Leaves(Goal(GetBootSlot(update), io, LoadSpec(s, io.read).value.0.boot), s, BootSpec(s, update, io).1)
  {
    hide LoadSpec, Stores, AfterBoot, SaveIfChangedSpec, OneShotSpec, Holds, BootState.Normal;
    LoadedIsSupported(s, io.read);
    var (d, orig) := LoadSpec(s, io.read).value;
    if update {
      if d.boot.OneShotRecovery() {
        OneShotLeavesGoal(s, d, orig, io);
      } else {
        AfterBootIsNormal(d.boot);
        SaveEffect(s, d.(boot := AfterBoot(d.boot)), orig, io.write1);
      }
    }
  }

  lemma StoreLeavesGoal(edit: Result<(BootState, Reply)>, readOnly: bool, io: Io, s: Image, d: Metadata, orig: Metadata)
    requires edit.Ok? ==> edit.value.0.Normal()
    requires Holds(s, orig) && Supported(d)
    ensures Leaves(EditGoal(edit, readOnly, io), s, StoreSpec(edit, readOnly, io, s, d, orig).1)
  {
    hide Stores, SaveIfChangedSpec, Holds;
    if edit.Ok? {
      SaveEffect(s, d.(boot := edit.value.0), orig, io.write1);
    }
  }

  lemma EditLeavesGoal(op: Op, io: Io, s: Image)
    requires !op.GetBootSlot? && !RefusesSlot(op)
    requires LoadSpec(s, io.read).Ok? && LoadSpec(s, io.read).value.0.boot.Normal()
    ensures Leaves(Goal(op, io, LoadSpec(s, io.read).value.0.boot), s, Exec(op, io, s).1)
  {
    hide LoadSpec, Stores, EditSpec, Holds, StoreSpec, EditGoal;
    LoadedIsSupported(s, io.read);
    var (d, orig) := LoadSpec(s, io.read).value;
    EditIsNormal(op, d.boot);
    StoreLeavesGoal(EditSpec(op, d.boot), ReadOnly(op), io, s, d, orig);
  }

  /** Byte for byte, storage does what the steps on the effective state say. */
  lemma ExecRefinesNext(op: Op, io: Io, s: Image)
    requires NormalView(Effective(s))
    ensures Effective(Exec(op, io, s).1) == Next(op, io, Effective(s))
    ensures Exec(op, io, s).1 == s || exists g: BootState :: g.Normal() && Stores(Exec(op, io, s).1, g)
  {
    hide LoadSpec, OneShotSpec, AfterBoot, SaveIfChangedSpec, StoreSpec, EditSpec;
    SeenIsLoaded(s, io);
    if LoadSpec(s, io.read).Ok? {
      LoadIsNormal(s, io.read);
      GoalIsNormal(op, io, LoadSpec(s, io.read).value.0.boot);
      if op.GetBootSlot? {
        BootLeavesGoal(s, op.update, io);
      } else if !RefusesSlot(op) {
        EditLeavesGoal(op, io, s);
      }
    }
  }
}
