/** The promises of the A/B/R library, over every run from every storage. */
module AbrTheorems {
  import opened Basics
  import opened Crc
  import opened AbrMetadata
  import opened Abr
  import opened AbrRuns
  import opened Iteration

  datatype Step = Step(op: Op, io: Io)

  function Run(steps: seq<Step>, s: Image): Image
    decreases |steps|
  {
    if steps == [] then s
    else var last := steps[|steps| - 1];
      Exec(last.op, last.io, Run(steps[..|steps| - 1], s)).1
  }

  lemma StepEffect(op: Op, io: Io, s: Image)
    ensures NormalView(Effective(s))
    ensures Effective(Exec(op, io, s).1) == Next(op, io, Effective(s))
  {
    EffectiveIsNormal(s);
    ExecRefinesNext(op, io, s);
  }

  // ----- Saved states ------------------------------------------------------------------------

  /** Every run leaves the storage untouched or holding valid metadata in normal form. */
  lemma {:induction false} RunLeavesNormalForm(steps: seq<Step>, s: Image)
    ensures var s' := Run(steps, s);
            s' == s || (Deserialize(s').Ok? && IsNormalForm(Deserialize(s').value.boot))
    decreases |steps|
  {
    if steps != [] {
      RunLeavesNormalForm(steps[..|steps| - 1], s);
      var last := steps[|steps| - 1];
      var before := Run(steps[..|steps| - 1], s);
      EffectiveIsNormal(before);
      ExecRefinesNext(last.op, last.io, before);
      if Run(steps, s) != before {
        var g: BootState :| g.Normal() && Stores(Run(steps, s), g);
        NormalizeIsProjection(g.a);
        NormalizeIsProjection(g.b);
      }
    }
  }

  predicate IsNormalForm(d: BootState) {
    d.Normalize() == d && d.a.priority <= 15 && d.b.priority <= 15 && d.a.tries <= 7 && d.b.tries <= 7
  }

  /** The program's unwrapped subtraction never fails, whatever the storage holds. */
  lemma ChargeNeverUnderflows(s: Image, fault: Option<Error>)
    ensures LoadSpec(s, fault).Ok? ==>
              var d := LoadSpec(s, fault).value.0.boot;
              d.ActiveSlot() != R && !d.Slot(d.ActiveSlot()).MarkedSuccessful() ==> d.Slot(d.ActiveSlot()).tries > 0
  {
    LoadIsNormal(s, fault);
  }

  // ----- At most one slot is marked successful -----------------------------------------------

  predicate AtMostOneSuccess(e: Option<BootState>) {
    e.Some? ==> !(e.value.a.MarkedSuccessful() && e.value.b.MarkedSuccessful())
  }

  lemma EditKeepsAtMostOneSuccess(op: Op, d: BootState)
    requires d.Normal() && AtMostOneSuccess(Some(d)) && !op.GetBootSlot? && EditSpec(op, d).Ok?
    ensures AtMostOneSuccess(Some(EditSpec(op, d).value.0))
  {
  }

  lemma GoalKeepsAtMostOneSuccess(op: Op, io: Io, d: BootState)
    requires d.Normal() && AtMostOneSuccess(Some(d)) && Goal(op, io, d).Some?
    ensures AtMostOneSuccess(Goal(op, io, d))
  {
    hide AfterBoot, EditSpec, BootState.OneShotRecovery, BootState.SetOneShotRecovery, BootState.Normal;
    if op.GetBootSlot? {
      AfterBootLeavesOneSuccess(d);
      ClearedRequest(d);
    } else {
      EditKeepsAtMostOneSuccess(op, d);
    }
  }

  lemma NextKeepsAtMostOneSuccess(op: Op, io: Io, e: Option<BootState>)
    requires NormalView(e) && AtMostOneSuccess(e)
    ensures AtMostOneSuccess(Next(op, io, e))
  {
    hide Goal;
    var seen := Seen(io, e);
    if seen.Some? && Goal(op, io, seen.value).Some? {
      GoalKeepsAtMostOneSuccess(op, io, seen.value);
    }
  }

  /** No run from storage with at most one such mark, or with no metadata at all, ever makes two. */
  lemma {:induction false} AtMostOneSuccessEver(steps: seq<Step>, s: Image)
    requires AtMostOneSuccess(Effective(s))
    ensures AtMostOneSuccess(Effective(Run(steps, s)))
    decreases |steps|
  {
    if steps != [] {
      var last, before := steps[|steps| - 1], Run(steps[..|steps| - 1], s);
      AtMostOneSuccessEver(steps[..|steps| - 1], s);
      StepEffect(last.op, last.io, before);
      NextKeepsAtMostOneSuccess(last.op, last.io, Effective(before));
    }
  }

  lemma AfterBootLeavesOneSuccess(d: BootState)
    requires d.Normal()
    ensures AtMostOneSuccess(Some(AfterBoot(d)))
  {
  }

  lemma WorkingBootEffect(s: Image)
    requires Effective(s).Some? && !Effective(s).value.OneShotRecovery()
    ensures Effective(s).value.Normal()
    ensures Effective(Exec(GetBootSlot(true), WORKING, s).1) == Some(AfterBoot(Effective(s).value))
    ensures Exec(GetBootSlot(true), WORKING, s).0 == Choice(Effective(s).value)
  {
    StepEffect(GetBootSlot(true), WORKING, s);
    SeenIsLoaded(s, WORKING);
  }

  /** Two marks, where legacy metadata has them, are gone after one working boot. */
  lemma BootLeavesOneSuccess(s: Image)
    requires Effective(s).Some? && !Effective(s).value.OneShotRecovery()
    ensures AtMostOneSuccess(Effective(Exec(GetBootSlot(true), WORKING, s).1))
  {
    WorkingBootEffect(s);
    AfterBootLeavesOneSuccess(Effective(s).value);
  }

  // ----- The slot last marked active ---------------------------------------------------------

  /** The step is answered with default metadata because its read failed, and it then saves. */
  predicate Clobbers(step: Step) {
    && step.io.read.Some? && Defaults(step.io.read.value) && step.io.write1.None?
    && !ReadOnly(step.op) && !RefusesSlot(step.op) && step.op != GetBootSlot(false)
  }

  /** `slot` outranks the other; for A a tie would do, but marking never leaves one. */
  predicate Outranks(e: Option<BootState>, slot: SlotIndex)
    requires slot != R
  {
    e.Some? && e.value.Slot(slot).priority > e.value.Slot(slot.Counterpart()).priority
  }

  lemma StoreDone(edit: (BootState, Reply), io: Io, s: Image, d: Metadata, orig: Metadata)
    requires edit.0.Normal() && Holds(s, orig) && Supported(d)
    requires !StoreSpec(Ok(edit), false, io, s, d, orig).0.Failed?
    ensures StoreSpec(Ok(edit), false, io, s, d, orig).0 == edit.1
    ensures Stores(StoreSpec(Ok(edit), false, io, s, d, orig).1, edit.0)
  {
    hide Stores, Serialize;
    SavedIsEffective(d.(boot := edit.0));
  }

  /** Success reported by any operation that edits the metadata means its goal is what the storage holds. */
  lemma DoneMeansStored(op: Op, io: Io, s: Image)
    requires !op.GetBootSlot? && !ReadOnly(op)
    requires !Exec(op, io, s).0.Failed?
    ensures !RefusesSlot(op) && LoadSpec(s, io.read).Ok?
    ensures var d := LoadSpec(s, io.read).value.0.boot;
            && Seen(io, Effective(s)) == Some(d) && d.Normal()
            && EditSpec(op, d).Ok? && Exec(op, io, s).0 == EditSpec(op, d).value.1
            && Stores(Exec(op, io, s).1, EditSpec(op, d).value.0)
  {
    hide LoadSpec, Stores, Holds, StoreSpec, BootState.Normal, EditSpec;
    SeenIsLoaded(s, io);
    if LoadSpec(s, io.read).Ok? {
      LoadedIsSupported(s, io.read);
      var (d, orig) := LoadSpec(s, io.read).value;
      EditIsNormal(op, d.boot);
      RefusedEdit(EditSpec(op, d.boot), io, s, d, orig);
      if EditSpec(op, d.boot).Ok? {
        StoreDone(EditSpec(op, d.boot).value, io, s, d, orig);
      }
    }
  }

  lemma RefusedEdit(edit: Result<(BootState, Reply)>, io: Io, s: Image, d: Metadata, orig: Metadata)
    ensures edit.Err? ==> StoreSpec(edit, false, io, s, d, orig) == (Failed(edit.error), s)
  {
  }

  lemma ActivateOutranks(d: BootState, slot: SlotIndex)
    requires slot != R
    ensures Outranks(Some(Activate(d, slot)), slot)
  {
  }

  lemma AfterBootKeepsPriorities(d: BootState)
    requires d.Normal()
    ensures AfterBoot(d).a.priority == d.a.priority && AfterBoot(d).b.priority == d.b.priority
  {
  }

  lemma EditKeepsPriorities(op: Op, d: BootState)
    requires !op.GetBootSlot? && !op.MarkActive? && EditSpec(op, d).Ok?
    ensures var d' := EditSpec(op, d).value.0; d'.a.priority == d.a.priority && d'.b.priority == d.b.priority
  {
  }

  lemma GoalKeepsPriorities(op: Op, io: Io, d: BootState)
    requires d.Normal() && !op.MarkActive? && Goal(op, io, d).Some?
    ensures var d' := Goal(op, io, d).value; d'.a.priority == d.a.priority && d'.b.priority == d.b.priority
  {
    if op.GetBootSlot? {
      AfterBootKeepsPriorities(d);
    } else {
      EditKeepsPriorities(op, d);
    }
  }

  lemma DefaultAccepts(op: Op, io: Io)
    requires !op.MarkActive?
    ensures Goal(op, io, DEFAULT_STATE).Some? <==> Clobbers(Step(op, io.(read := Some(Device))))
  {
  }

  lemma NextKeepsRank(step: Step, e: Option<BootState>, slot: SlotIndex)
    requires slot != R && NormalView(e) && Outranks(e, slot) && !step.op.MarkActive?
    ensures Outranks(Next(step.op, step.io, e), if Clobbers(step) then A else slot)
  {
    var seen := Seen(step.io, e);
    if seen.Some? {
      if Goal(step.op, step.io, seen.value).Some? {
        GoalKeepsPriorities(step.op, step.io, seen.value);
      }
      DefaultAccepts(step.op, step.io);
    }
  }

  predicate NoMarkActive(steps: seq<Step>) {
    forall i :: 0 <= i < |steps| ==> !steps[i].op.MarkActive?
  }

  predicate SomeClobbers(steps: seq<Step>) {
    exists i :: 0 <= i < |steps| && Clobbers(steps[i])
  }

  lemma LastClobbers(steps: seq<Step>)
    requires steps != []
    ensures SomeClobbers(steps) <==> SomeClobbers(steps[..|steps| - 1]) || Clobbers(steps[|steps| - 1])
  {
    assert steps == steps[..|steps| - 1] + [steps[|steps| - 1]];
  }

  lemma {:induction false} RunKeepsRank(steps: seq<Step>, s: Image, slot: SlotIndex)
    requires slot != R && Outranks(Effective(s), slot) && NoMarkActive(steps)
    ensures Outranks(Effective(Run(steps, s)), if SomeClobbers(steps) then A else slot)
    decreases |steps|
  {
    if steps != [] {
      var init, last := steps[..|steps| - 1], steps[|steps| - 1];
      RunKeepsRank(init, s, slot);
      StepEffect(last.op, last.io, Run(init, s));
      NextKeepsRank(last, Effective(Run(init, s)), if SomeClobbers(init) then A else slot);
      LastClobbers(steps);
    }
  }

  lemma LastMarkedActiveReply(s: Image, slot: SlotIndex)
    requires slot != R && Outranks(Effective(s), slot)
    ensures Exec(GetLastMarkedActive, WORKING, s).0 == LastActive(slot)
  {
    hide LoadSpec, Effective;
    SeenIsLoaded(s, WORKING);
  }

  /**
   After marking a slot active, and until the next such mark, that slot is reported as last
   marked active; the one exception is slot B when some step saved default metadata over it.
   */
  lemma LastMarkedActiveSticks(s: Image, io: Io, slot: SlotIndex, steps: seq<Step>)
    requires Exec(MarkActive(slot), io, s).0 == Done
    requires NoMarkActive(steps)
    ensures var s' := Run(steps, Exec(MarkActive(slot), io, s).1);
            Exec(GetLastMarkedActive, WORKING, s').0 == LastActive(slot) <==> slot == A || !SomeClobbers(steps)
  {
    DoneMeansStored(MarkActive(slot), io, s);
    var marked := Exec(MarkActive(slot), io, s).1;
    ActivateOutranks(LoadSpec(s, io.read).value.0.boot, slot);
    RunKeepsRank(steps, marked, slot);
    LastMarkedActiveReply(Run(steps, marked), if SomeClobbers(steps) then A else slot);
  }

  /** B is marked active; then a boot whose read fails saves default metadata, which prefers A. */
  lemma MarkIsLost(s: Image)
    requires Exec(MarkActive(B), WORKING, s).0 == Done
    ensures var boot := Step(GetBootSlot(true), WORKING.(read := Some(Device)));
            var s' := Run([boot], Exec(MarkActive(B), WORKING, s).1);
            Exec(GetLastMarkedActive, WORKING, s').0 != LastActive(B)
  {
    hide Exec, Run;
    var boot := Step(GetBootSlot(true), WORKING.(read := Some(Device)));
    assert Clobbers([boot][0]);
    LastMarkedActiveSticks(s, WORKING, B, [boot]);
  }

  // ----- One-shot recovery -------------------------------------------------------------------

  predicate RecoveryPending(s: Image) {
    Effective(s).Some? && Effective(s).value.OneShotRecovery()
  }

  /** The boot finds the request and manages to strike it. */
  predicate Honours(s: Image, io: Io) {
    RecoveryPending(s) && io.read.None? && io.write1.None?
  }

  predicate NoDefaulting(io: Io) {
    io.read.Some? ==> !Defaults(io.read.value)
  }

  function BootTo(s: Image, io: Io): Image {
    Exec(GetBootSlot(true), io, s).1
  }

  lemma ClearedRequest(d: BootState)
    ensures !d.SetOneShotRecovery(false).OneShotRecovery()
    ensures d.SetOneShotRecovery(false).a == d.a && d.SetOneShotRecovery(false).b == d.b
  {
  }

  lemma AfterBootKeepsRequest(d: BootState)
    requires d.Normal()
    ensures AfterBoot(d).OneShotRecovery() == d.OneShotRecovery()
  {
  }

  lemma HonouredReply(s: Image, io: Io)
    requires Honours(s, io)
    ensures Exec(GetBootSlot(true), io, s).0 == Boot(R, false)
  {
    SeenIsLoaded(s, io);
  }

  /** Honouring the request gives recovery and burns no tries; not honouring it leaves it pending. */
  lemma OneShotStep(s: Image, io: Io)
    requires RecoveryPending(s) && NoDefaulting(io)
    ensures Honours(s, io) ==>
              && Exec(GetBootSlot(true), io, s).0 == Boot(R, false)
              && Effective(BootTo(s, io)) == Some(Effective(s).value.SetOneShotRecovery(false))
    ensures RecoveryPending(BootTo(s, io)) <==> !Honours(s, io)
  {
    StepEffect(GetBootSlot(true), io, s);
    var d := Effective(s).value;
    ClearedRequest(d);
    AfterBootKeepsRequest(d);
    if Honours(s, io) {
      HonouredReply(s, io);
    }
  }

  /** The step finds the request and does what it asks for. */
  predicate Honouring(step: Step) {
    step.op == GetBootSlot(true) && step.io.read.None? && step.io.write1.None?
  }

  /** The step takes a pending request away: by honouring or revoking it, or by saving default metadata. */
  predicate Strikes(step: Step) {
    || (Clobbers(step) && step.op != SetOneShotRecovery(true))
    || Honouring(step)
    || (step.op == SetOneShotRecovery(false) && step.io.read.None? && step.io.write1.None?)
    || (step.op == TakeOneShotFlags && step.io.read.None? && step.io.write1.None?)
  }

  /** What becomes of the request bit. */
  lemma EditedRequest(op: Op, d: BootState)
    requires !op.GetBootSlot? && EditSpec(op, d).Ok?
    ensures EditSpec(op, d).value.0.OneShotRecovery() ==
              if op.SetOneShotRecovery? then op.enable
              else if op.TakeOneShotFlags? then false
              else d.OneShotRecovery()
  {
  }

  lemma GoalRequest(op: Op, io: Io, d: BootState)
    requires d.Normal() && Goal(op, io, d).Some?
    ensures Goal(op, io, d).value.OneShotRecovery() ==
              if op.SetOneShotRecovery? then op.enable
              else if op.TakeOneShotFlags? || (op.GetBootSlot? && io.write1.None?) then false
              else d.OneShotRecovery()
  {
    if op.GetBootSlot? {
      AfterBootKeepsRequest(d);
      ClearedRequest(d);
    } else {
      EditedRequest(op, d);
    }
  }

  lemma EditAccepts(op: Op, d: BootState)
    requires !op.GetBootSlot?
    ensures EditSpec(op, d).Ok? <==> !RefusesSlot(op) && (op.MarkSuccessful? ==> d.Slot(op.slot).Bootable())
    ensures op.MarkSuccessful? && op.slot != R ==> DEFAULT_STATE.Slot(op.slot).Bootable()
  {
  }

  lemma NextRequest(step: Step, d: BootState)
    requires d.Normal() && d.OneShotRecovery()
    ensures var e := Next(step.op, step.io, Some(d)); e.Some? && (e.value.OneShotRecovery() <==> !Strikes(step))
  {
    hide EditSpec, AfterBoot, BootState.SetOneShotRecovery, BootState.Slot, SlotData.Bootable;
    var op, io := step.op, step.io;
    var seen := Seen(io, Some(d));
    if seen.Some? {
      if !op.GetBootSlot? {
        EditAccepts(op, seen.value);
      }
      if Goal(op, io, seen.value).Some? {
        GoalRequest(op, io, seen.value);
      }
    }
  }

  lemma RequestStep(step: Step, s: Image)
    requires RecoveryPending(s)
    ensures RecoveryPending(Exec(step.op, step.io, s).1) <==> !Strikes(step)
  {
    hide Exec, Effective, Next, Strikes;
    StepEffect(step.op, step.io, s);
    NextRequest(step, Effective(s).value);
  }

  lemma NoRequestStep(step: Step, s: Image)
    requires !RecoveryPending(s) && step.op != SetOneShotRecovery(true)
    ensures !RecoveryPending(Exec(step.op, step.io, s).1)
  {
    var (op, io) := (step.op, step.io);
    StepEffect(op, io, s);
    var seen := Seen(io, Effective(s));
    if seen.Some? && Goal(op, io, seen.value).Some? {
      GoalRequest(op, io, seen.value);
    }
  }

  /** The boots of a run that find the request and strike it. */
  function TimesHonoured(steps: seq<Step>, s: Image): nat
    decreases |steps|
  {
    if steps == [] then 0 else
    var init, last := steps[..|steps| - 1], steps[|steps| - 1];
    TimesHonoured(init, s) + if last.op == GetBootSlot(true) && Honours(Run(init, s), last.io) then 1 else 0
  }

  /** The first step that strikes the request, if there is one. */
  function FirstStrike(steps: seq<Step>): Option<Step> {
    if steps == [] then None else
    var init := FirstStrike(steps[..|steps| - 1]);
    if init.Some? then init else if Strikes(steps[|steps| - 1]) then Some(steps[|steps| - 1]) else None
  }

  /**
   Over any run without another request, under any faults: the request is pending for as long as no step strikes
   it, and is honoured exactly once if the first step to do so is a boot that finds it, and otherwise never.
   */
  lemma {:induction false} RequestHonouredOnce(steps: seq<Step>, s: Image)
    requires RecoveryPending(s)
    requires forall i :: 0 <= i < |steps| ==> steps[i].op != SetOneShotRecovery(true)
    ensures RecoveryPending(Run(steps, s)) <==> FirstStrike(steps).None?
    ensures TimesHonoured(steps, s) == if FirstStrike(steps).Some? && Honouring(FirstStrike(steps).value) then 1 else 0
    decreases |steps|
  {
    hide Exec, Clobbers, RecoveryPending;
    if steps != [] {
      var init, last := steps[..|steps| - 1], steps[|steps| - 1];
      RequestHonouredOnce(init, s);
      if FirstStrike(init).Some? {
        NoRequestStep(last, Run(init, s));
      } else {
        RequestStep(last, Run(init, s));
      }
    }
  }

  /** A request that was reported as stored is pending. */
  lemma RequestIsPending(s: Image, io: Io)
    requires Exec(SetOneShotRecovery(true), io, s).0 == Done
    ensures RecoveryPending(Exec(SetOneShotRecovery(true), io, s).1)
  {
    hide LoadSpec, StoreSpec, SaveIfChangedSpec, Serialize;
    DoneMeansStored(SetOneShotRecovery(true), io, s);
  }

  // ----- Boot convergence --------------------------------------------------------------------

  /** How often a slot can still be attempted; once out-ranked, a success mark is worth all tries. */
  function Attempts(s: SlotData): nat {
    if s.MarkedSuccessful() then 7 else s.tries as nat
  }

  lemma AttemptsOfNormal(s: SlotData)
    requires s.Normal()
    ensures Attempts(s) <= 7
    ensures s.Bootable() <==> Attempts(s) > 0
    ensures Attempts(Forgotten(s)) == Attempts(s) && !Forgotten(s).MarkedSuccessful()
  {
  }

  lemma BurnCostsOne(s: SlotData)
    requires s.Normal() && s.tries > 0
    ensures !s.MarkedSuccessful() && Attempts(Burn(s)) == Attempts(s) - 1
  {
  }

  /** While the booted slot is not known to be good, one boot costs it one attempt and the other none. */
  lemma BootCostsOne(d: BootState, x: SlotIndex)
    requires d.Normal() && x == d.ActiveSlot() != R && !d.Slot(x).MarkedSuccessful()
    ensures var d' := AfterBoot(d);
            && Attempts(d'.Slot(x)) == Attempts(d.Slot(x)) - 1
            && Attempts(d'.Slot(x.Counterpart())) == Attempts(d.Slot(x.Counterpart()))
            && !d'.a.MarkedSuccessful() && !d'.b.MarkedSuccessful()
  {
    ActiveSlotHasTries(d);
    BurnCostsOne(d.Slot(x));
    AttemptsOfNormal(d.a);
    AttemptsOfNormal(d.b);
  }

  function BootStates(d: BootState, n: nat): (d': BootState)
    requires d.Normal()
    ensures d'.Normal()
  {
    if n == 0 then d else
    var p := BootStates(d, n - 1);
    AfterBootIsNormal(p);
    AfterBoot(p)
  }

  /** `x` wins whenever both slots can be booted. */
  predicate Preferred(d: BootState, x: SlotIndex)
    requires x != R
  {
    var y := x.Counterpart();
    d.Slot(x).priority > d.Slot(y).priority || (d.Slot(x).priority == d.Slot(y).priority && x == A)
  }

  lemma ActiveByAttempts(d: BootState, x: SlotIndex)
    requires d.Normal() && x != R
    requires Attempts(d.Slot(x.Counterpart())) == 0 || Preferred(d, x)
    ensures d.ActiveSlot() == if Attempts(d.Slot(x)) > 0 then x
                              else if Attempts(d.Slot(x.Counterpart())) > 0 then x.Counterpart() else R
  {
    AttemptsOfNormal(d.a);
    AttemptsOfNormal(d.b);
  }

  lemma ActiveIsPreferred(d: BootState)
    requires d.Normal() && d.ActiveSlot() != R
    ensures var x := d.ActiveSlot(); Attempts(d.Slot(x.Counterpart())) == 0 || Preferred(d, x)
    ensures Attempts(d.Slot(d.ActiveSlot())) > 0
  {
    AttemptsOfNormal(d.a);
    AttemptsOfNormal(d.b);
  }

  lemma RestingBoot(d: BootState)
    requires d.Normal() && d.ActiveSlot() == R
    ensures AfterBoot(d) == d
  {
    AttemptsOfNormal(d.a);
    AttemptsOfNormal(d.b);
  }

  function Left(total: nat, used: nat): nat {
    if used <= total then total - used else 0
  }

  /** The attempts left to `x` and to `y` after `n` boots, `x` going first. */
  predicate Trajectory(d: BootState, x: SlotIndex, ax: nat, ay: nat, n: nat)
    requires x != R
  {
    var y := x.Counterpart();
    && d.Normal()
    && Attempts(d.Slot(x)) == Left(ax, n)
    && Attempts(d.Slot(y)) == Left(ay, Left(n, ax))
    && (ay == 0 || Preferred(d, x))
    && !d.Slot(x).MarkedSuccessful()
    && (n > 0 ==> !d.Slot(y).MarkedSuccessful())
  }

  lemma TrajectoryStep(d: BootState, x: SlotIndex, ax: nat, ay: nat, n: nat)
    requires x != R && ax > 0 && Trajectory(d, x, ax, ay, n)
    ensures Trajectory(AfterBoot(d), x, ax, ay, n + 1)
    ensures d.ActiveSlot() == if n < ax then x else if n < ax + ay then x.Counterpart() else R
  {
    ActiveByAttempts(d, x);
    AfterBootIsNormal(d);
    AfterBootKeepsPriorities(d);
    if n < ax {
      BootCostsOne(d, x);
    } else if n < ax + ay {
      BootCostsOne(d, x.Counterpart());
    } else {
      RestingBoot(d);
    }
  }

  lemma {:induction false} TrajectoryHolds(d: BootState, n: nat)
    requires d.Normal() && d.ActiveSlot() != R && !d.Slot(d.ActiveSlot()).MarkedSuccessful()
    ensures var x := d.ActiveSlot();
            Trajectory(BootStates(d, n), x, Attempts(d.Slot(x)), Attempts(d.Slot(x.Counterpart())), n)
  {
    var x := d.ActiveSlot();
    ActiveIsPreferred(d);
    if n != 0 {
      TrajectoryHolds(d, n - 1);
      TrajectoryStep(BootStates(d, n - 1), x, Attempts(d.Slot(x)), Attempts(d.Slot(x.Counterpart())), n - 1);
    }
  }

  lemma GoodSlotStays(d: BootState, x: SlotIndex)
    requires d.Normal() && x == d.ActiveSlot() != R && d.Slot(x).MarkedSuccessful()
    ensures AfterBoot(d).ActiveSlot() == x && AfterBoot(d).Slot(x) == d.Slot(x)
  {
    AfterBootKeepsPriorities(d);
    AfterBootIsNormal(d);
    AttemptsOfNormal(d.a);
    AttemptsOfNormal(d.b);
    AttemptsOfNormal(AfterBoot(d).a);
    AttemptsOfNormal(AfterBoot(d).b);
  }

  /** The choice of the boot after `n` boots. */
  function Expected(d: BootState, n: nat): Reply {
    var x := d.ActiveSlot();
    if x == R then Boot(R, false)
    else if d.Slot(x).MarkedSuccessful() then Boot(x, true)
    else
      var y := x.Counterpart();
      var ax, ay := Attempts(d.Slot(x)), Attempts(d.Slot(y));
      Boot(if n < ax then x else if n < ax + ay then y else R, false)
  }

  lemma {:induction false} SettledChoice(d: BootState, n: nat)
    requires d.Normal()
    requires d.ActiveSlot() == R || d.Slot(d.ActiveSlot()).MarkedSuccessful()
    ensures Choice(BootStates(d, n)) == Choice(d)
  {
    if n != 0 {
      SettledChoice(d, n - 1);
      var p := BootStates(d, n - 1);
      if d.ActiveSlot() == R {
        RestingBoot(p);
      } else {
        GoodSlotStays(p, d.ActiveSlot());
      }
    }
  }

  lemma ChoiceAfter(d: BootState, n: nat)
    requires d.Normal()
    ensures Choice(BootStates(d, n)) == Expected(d, n)
  {
    var x := d.ActiveSlot();
    if x == R || d.Slot(x).MarkedSuccessful() {
      SettledChoice(d, n);
    } else {
      TrajectoryHolds(d, n);
      ActiveIsPreferred(d);
      TrajectoryStep(BootStates(d, n), x, Attempts(d.Slot(x)), Attempts(d.Slot(x.Counterpart())), n);
    }
  }

  function WorkingBoot(s: Image): Image {
    BootTo(s, WORKING)
  }

  /** The state is in normal form and asks for no recovery. */
  predicate Quiet(e: Option<BootState>) {
    e.Some? && e.value.Normal() && !e.value.OneShotRecovery()
  }

  function QuietBoot(e: Option<BootState>): Option<BootState> {
    if Quiet(e) then Some(AfterBoot(e.value)) else e
  }

  lemma WorkingBootTracks(s: Image)
    requires Quiet(Effective(s))
    ensures Effective(WorkingBoot(s)) == QuietBoot(Effective(s))
  {
    WorkingBootEffect(s);
  }

  lemma QuietBootIsQuiet(e: Option<BootState>)
    requires Quiet(e)
    ensures Quiet(QuietBoot(e))
  {
    AfterBootIsNormal(e.value);
    AfterBootKeepsRequest(e.value);
  }

  lemma {:induction false} QuietBootsAre(d: BootState, n: nat)
    requires Quiet(Some(d))
    ensures Iterate(QuietBoot, Some(d), n) == Some(BootStates(d, n)) && Quiet(Some(BootStates(d, n)))
  {
    if n != 0 {
      QuietBootsAre(d, n - 1);
      QuietBootIsQuiet(Some(BootStates(d, n - 1)));
    }
  }

  lemma WorkingBootsEffect(s: Image, n: nat)
    requires Quiet(Effective(s))
    ensures Effective(Iterate(WorkingBoot, s, n)) == Some(BootStates(Effective(s).value, n))
    ensures Quiet(Effective(Iterate(WorkingBoot, s, n)))
  {
    forall x | Quiet(Effective(x)) ensures Effective(WorkingBoot(x)) == QuietBoot(Effective(x)) {
      WorkingBootTracks(x);
    }
    forall e | Quiet(e) ensures Quiet(QuietBoot(e)) {
      QuietBootIsQuiet(e);
    }
    IterateTracks(WorkingBoot, QuietBoot, Effective, Quiet, s, n);
    QuietBootsAre(Effective(s).value, n);
  }

  lemma UnsupportedBoot(s: Image)
    requires Effective(s).None?
    ensures Exec(GetBootSlot(true), WORKING, s) == (Boot(R, false), s)
  {
    SeenIsLoaded(s, WORKING);
  }

  /**
   From any 32 bytes of storage, with no request pending: metadata of an unsupported version
   boots R for ever; a good active slot boots for ever; otherwise the active slot is attempted
   as often as it has attempts, then the other one, then R for ever, after at most 14 attempts.
   */
  lemma BootConvergence(s: Image, n: nat)
    requires !RecoveryPending(s)
    ensures var reply := Exec(GetBootSlot(true), WORKING, Iterate(WorkingBoot, s, n)).0;
            if Effective(s).None? then reply == Boot(R, false) else reply == Expected(Effective(s).value, n)
    ensures Effective(s).None? <==> Deserialize(s) == Err(UnsupportedVersion)
    ensures Effective(s).Some? ==> Attempts(Effective(s).value.a) + Attempts(Effective(s).value.b) <= 14
  {
    if Effective(s).None? {
      UnsupportedBoot(s);
      IterateRests(WorkingBoot, s, n);
    } else {
      EffectiveIsNormal(s);
      WorkingBootsEffect(s, n);
      WorkingBootEffect(Iterate(WorkingBoot, s, n));
      ChoiceAfter(Effective(s).value, n);
      AttemptsOfNormal(Effective(s).value.a);
      AttemptsOfNormal(Effective(s).value.b);
    }
  }

  // ----- Leaving out unchanged writes --------------------------------------------------------

  /** What an operation with working storage would leave if it always wrote its goal. */
  function EagerExec(op: Op, s: Image): Image {
    match LoadSpec(s, None)
    case Err(_) => s
    case Ok((d, _)) =>
      LoadIsNormal(s, None);
      EagerSave(s, d, Goal(op, WORKING, d.boot))
  }

  function EagerRun(ops: seq<Op>, s: Image): Image
    decreases |ops|
  {
    if ops == [] then s else EagerExec(ops[|ops| - 1], EagerRun(ops[..|ops| - 1], s))
  }

  function LazyRun(ops: seq<Op>, s: Image): Image
    decreases |ops|
  {
    if ops == [] then s else Exec(ops[|ops| - 1], WORKING, LazyRun(ops[..|ops| - 1], s)).1
  }

  function EagerSave(s: Image, d: Metadata, goal: Option<BootState>): Image {
    if goal.None? then s else Serialize(d.(boot := goal.value))
  }

  lemma LazyBootIsEager(update: bool, s: Image, d: Metadata, orig: Metadata)
    requires LoadSpec(s, None) == Ok((d, orig)) && Holds(s, orig) && Supported(d) && d.boot.Normal()
    ensures BootSpec(s, update, WORKING).1 == EagerSave(s, d, Goal(GetBootSlot(update), WORKING, d.boot))
  {
    SaveIfChangedIsSave(s, d.(boot := AfterBoot(d.boot)), orig, None);
  }

  lemma LazyStoreIsEager(edit: Result<(BootState, Reply)>, readOnly: bool, s: Image, d: Metadata, orig: Metadata)
    requires Holds(s, orig) && Supported(d)
    ensures StoreSpec(edit, readOnly, WORKING, s, d, orig).1 == EagerSave(s, d, EditGoal(edit, readOnly, WORKING))
  {
    if edit.Ok? {
      SaveIfChangedIsSave(s, d.(boot := edit.value.0), orig, None);
    }
  }

  lemma LazyExecIsEager(op: Op, s: Image)
    ensures Exec(op, WORKING, s).1 == EagerExec(op, s)
  {
    if LoadSpec(s, None).Ok? {
      LoadedIsSupported(s, None);
      var (d, orig) := LoadSpec(s, None).value;
      if op.GetBootSlot? {
        LazyBootIsEager(op.update, s, d, orig);
      } else if !RefusesSlot(op) {
        LazyStoreIsEager(EditSpec(op, d.boot), ReadOnly(op), s, d, orig);
      }
    }
  }

  /** Over any run with working storage, leaving out unchanged writes cannot be told from the bytes. */
  lemma {:induction false} LazyRunIsEager(ops: seq<Op>, s: Image)
    ensures LazyRun(ops, s) == EagerRun(ops, s)
    decreases |ops|
  {
    if ops != [] {
      LazyRunIsEager(ops[..|ops| - 1], s);
      LazyExecIsEager(ops[|ops| - 1], LazyRun(ops[..|ops| - 1], s));
    }
  }
}
