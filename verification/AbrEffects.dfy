/** What the A/B/R operations do to each other, told by their replies: what one stores, the next ones report. */
module AbrEffects {
  import opened Basics
  import opened Crc
  import opened AbrMetadata
  import opened Abr
  import opened AbrRuns
  import opened AbrTheorems
  import opened Iteration

  /** The reply with working storage. */
  function Ask(op: Op, s: Image): Reply {
    Exec(op, WORKING, s).0
  }

  /** The reply of the boot after `n` working boots. */
  function NthBoot(s: Image, n: nat): Reply {
    Ask(GetBootSlot(true), Iterate(WorkingBoot, s, n))
  }

  lemma Answer(op: Op, io: Io, s: Image)
    requires ReadOnly(op)
    ensures Exec(op, io, s).1 == s
    ensures Seen(io, Effective(s)).Some? ==>
              EditSpec(op, Seen(io, Effective(s)).value) == Ok((Seen(io, Effective(s)).value, Exec(op, io, s).0))
    ensures Seen(io, Effective(s)).None? ==> Exec(op, io, s).0.Failed?
  {
    hide LoadSpec, InfoSpec, LastMarkedActive;
    SeenIsLoaded(s, io);
  }

  // ----- Looking without booting -------------------------------------------------------------

  lemma BootReply(update: bool, io: Io, s: Image)
    requires Seen(io, Effective(s)).Some? ==> !update || !Seen(io, Effective(s)).value.OneShotRecovery()
    ensures Exec(GetBootSlot(update), io, s).0 ==
            if Seen(io, Effective(s)).Some? then Choice(Seen(io, Effective(s)).value) else Boot(R, false)
    ensures !update ==> Exec(GetBootSlot(update), io, s).1 == s
  {
    hide LoadSpec, Choice, AfterBoot, SaveIfChangedSpec;
    SeenIsLoaded(s, io);
  }

  /** Without a request, looking gives what booting would give, and touches nothing. */
  lemma LookIsBoot(s: Image, io: Io, io': Io)
    requires io.read == io'.read
    requires Seen(io, Effective(s)).Some? ==> !Seen(io, Effective(s)).value.OneShotRecovery()
    ensures Exec(GetBootSlot(false), io, s) == (Exec(GetBootSlot(true), io', s).0, s)
  {
    hide Exec, Effective, Choice, BootState.OneShotRecovery;
    BootReply(false, io, s);
    BootReply(true, io', s);
  }

  /** With a request pending, looking ignores it: it gives what booting gives once the request is revoked. */
  lemma LookIgnoresRequest(s: Image, io: Io, io': Io)
    requires RecoveryPending(s) && io.read.None? && io'.read.None?
    ensures Ask(SetOneShotRecovery(false), s) == Done
    ensures var revoked := Exec(SetOneShotRecovery(false), WORKING, s).1;
            Exec(GetBootSlot(false), io, s) == (Exec(GetBootSlot(true), io', revoked).0, s)
  {
    hide Exec, Effective, BootState.OneShotRecovery, BootState.SetOneShotRecovery, BootState.ActiveSlot;
    var d, revoked := Effective(s).value, Exec(SetOneShotRecovery(false), WORKING, s).1;
    Accepted(SetOneShotRecovery(false), WORKING, s);
    Edited(SetOneShotRecovery(false), WORKING, s);
    ClearedRequest(d);
    BootReply(false, io, s);
    BootReply(true, io', revoked);
    SameSlotsSameChoice(d, d.SetOneShotRecovery(false));
  }

  /** A request that cannot be struck from storage is ignored: the boot gives what looking gives. */
  lemma IgnoredRequestBoots(s: Image, io: Io)
    requires Seen(io, Effective(s)).Some? && Seen(io, Effective(s)).value.OneShotRecovery() && io.write1.Some?
    ensures Exec(GetBootSlot(true), io, s).0 == Exec(GetBootSlot(false), io, s).0
  {
    hide LoadSpec, Choice, AfterBoot, SaveIfChangedSpec, BootState.OneShotRecovery, BootState.SetOneShotRecovery, Crc32;
    SeenIsLoaded(s, io);
    IgnoredRequestIsKept(LoadSpec(s, io.read).value.0.boot);
  }

  lemma SameSlotsSameChoice(d: BootState, d': BootState)
    requires d.a == d'.a && d.b == d'.b
    ensures Choice(d) == Choice(d')
  {
    hide SlotData.NormalizedPriority;
  }

  // ----- When an edit is accepted ------------------------------------------------------------

  /** What makes an edit fail, whatever happens to the write. */
  predicate Rejects(op: Op, seen: Option<BootState>) {
    RefusesSlot(op) || seen.None? || (op.MarkSuccessful? && !seen.value.Slot(op.slot).Bootable())
  }

  lemma EditReplies(op: Op, d: BootState)
    requires !op.GetBootSlot?
    ensures EditSpec(op, d).Ok? ==> !EditSpec(op, d).value.1.Failed?
  {
  }

  lemma FailedEdit(op: Op, io: Io, s: Image)
    requires !op.GetBootSlot?
    ensures Rejects(op, Seen(io, Effective(s))) ==> Exec(op, io, s).0.Failed?
    ensures Exec(op, io, s).0.Failed? ==> Exec(op, io, s).1 == s
    ensures Exec(op, io, s).0.Failed? && !Rejects(op, Seen(io, Effective(s))) ==>
              !ReadOnly(op) && io.write1 == Some(Exec(op, io, s).0.error)
  {
    hide LoadSpec, Serialize, EditSpec, BootState.Slot, SlotData.Bootable;
    SeenIsLoaded(s, io);
    if LoadSpec(s, io.read).Ok? {
      EditAccepts(op, LoadSpec(s, io.read).value.0.boot);
      EditReplies(op, LoadSpec(s, io.read).value.0.boot);
    }
  }

  /** With a working write, exactly the rejected edits fail. */
  lemma Accepted(op: Op, io: Io, s: Image)
    requires !op.GetBootSlot? && io.write1.None?
    ensures Exec(op, io, s).0.Failed? <==> Rejects(op, Seen(io, Effective(s)))
  {
    hide Effective, Exec, Rejects;
    FailedEdit(op, io, s);
  }

  /** The edit of the state `d` leaves `s'` in storage and gives the reply. */
  predicate EditsTo(op: Op, d: BootState, s': Image, reply: Reply)
    requires !op.GetBootSlot?
  {
    && d.Normal() && !RefusesSlot(op) && Effective(s').Some? && Effective(s').value.Normal()
    && EditSpec(op, d) == Ok((Effective(s').value, reply))
  }

  lemma Edited(op: Op, io: Io, s: Image)
    requires !op.GetBootSlot? && !ReadOnly(op) && !Exec(op, io, s).0.Failed?
    ensures Seen(io, Effective(s)).Some?
    ensures EditsTo(op, Seen(io, Effective(s)).value, Exec(op, io, s).1, Exec(op, io, s).0)
  {
    hide Effective, Exec, EditSpec, LoadSpec;
    DoneMeansStored(op, io, s);
    EffectiveIsNormal(Exec(op, io, s).1);
  }

  // ----- What `get_slot_info` foretells ------------------------------------------------------

  /** How often a slot in this state can be attempted, once it no longer counts as good. */
  function Tries(state: SlotState): nat {
    match state
    case Successful => 7
    case Bootable(tries) => tries as nat
    case Unbootable => 0
  }

  /** The reply of the boot after `n` boots: `x` goes first, unless it is good, then `y`, then R. */
  function InTurn(x: SlotIndex, first: SlotState, y: SlotIndex, second: SlotState, n: nat): Reply {
    if first.Successful? then Boot(x, true)
    else Boot(if n < Tries(first) then x else if n < Tries(first) + Tries(second) then y else R, false)
  }

  /** The replies of the boots to come, from what is reported of the slots. */
  function Foretold(a: Reply, b: Reply, n: nat): Reply
    requires a.Info? && b.Info?
  {
    if a.active then InTurn(A, a.state, B, b.state, n)
    else if b.active then InTurn(B, b.state, A, a.state, n)
    else Boot(R, false)
  }

  lemma InfoMatchesAttempts(d: BootState, x: SlotIndex)
    requires d.Normal() && x != R
    ensures Tries(InfoSpec(d, x).state) == Attempts(d.Slot(x))
    ensures InfoSpec(d, x).state.Successful? <==> d.Slot(x).MarkedSuccessful()
  {
    AttemptsOfNormal(d.Slot(x));
  }

  lemma ForetoldIsExpected(d: BootState, n: nat)
    requires d.Normal()
    ensures Foretold(InfoSpec(d, A), InfoSpec(d, B), n) == Expected(d, n)
  {
    hide Attempts, Tries, SlotData.MarkedSuccessful, BootState.Normal, BootState.ActiveSlot;
    InfoMatchesAttempts(d, A);
    InfoMatchesAttempts(d, B);
    InfoSpecActive(d, A);
    InfoSpecActive(d, B);
  }

  lemma InfoSpecActive(d: BootState, x: SlotIndex)
    ensures InfoSpec(d, x).active <==> d.ActiveSlot() == x
  {
  }

  lemma Reported(s: Image, x: SlotIndex)
    ensures Ask(GetSlotInfo(x), s) ==
            if Effective(s).Some? then InfoSpec(Effective(s).value, x) else Ask(GetSlotInfo(x), s)
    ensures Effective(s).None? ==> Ask(GetSlotInfo(x), s).Failed?
  {
    hide Exec, Effective, InfoSpec;
    Answer(GetSlotInfo(x), WORKING, s);
  }

  /** What is reported of the two slots determines the replies of all boots to come; R counts as good. */
  lemma BootsForetold(s: Image, n: nat)
    requires !RecoveryPending(s) && Effective(s).Some?
    ensures Ask(GetSlotInfo(A), s).Info? && Ask(GetSlotInfo(B), s).Info?
    ensures NthBoot(s, n) == Foretold(Ask(GetSlotInfo(A), s), Ask(GetSlotInfo(B), s), n)
    ensures Ask(GetSlotInfo(R), s) == Info(Successful, NthBoot(s, 0).slot == R)
  {
    hide Effective, RecoveryPending, Exec, Foretold;
    BootConvergence(s, n);
    BootConvergence(s, 0);
    Reported(s, A);
    Reported(s, B);
    Reported(s, R);
    EffectiveIsNormal(s);
    ForetoldIsExpected(Effective(s).value, n);
    ActiveIsFirst(Effective(s).value);
  }

  lemma ActiveIsFirst(d: BootState)
    requires d.Normal()
    ensures Expected(d, 0).Boot? && Expected(d, 0).slot == d.ActiveSlot()
  {
    if d.ActiveSlot() != R {
      ActiveIsPreferred(d);
    }
  }

  /** Where both slots can be booted, the one last marked active is booted first; a tie goes to A. */
  lemma LastMarkedIsFirst(s: Image)
    requires !RecoveryPending(s) && Effective(s).Some?
    ensures Ask(GetSlotInfo(A), s).Info? && Ask(GetSlotInfo(B), s).Info?
    ensures !Ask(GetSlotInfo(A), s).state.Unbootable? && !Ask(GetSlotInfo(B), s).state.Unbootable? ==>
              NthBoot(s, 0).Boot? && Ask(GetLastMarkedActive, s) == LastActive(NthBoot(s, 0).slot)
  {
    hide Effective, RecoveryPending, Exec, InfoSpec, LastMarkedActive;
    Reported(s, A);
    Reported(s, B);
    Answer(GetLastMarkedActive, WORKING, s);
    BootConvergence(s, 0);
    EffectiveIsNormal(s);
    ActiveIsFirst(Effective(s).value);
    LastMarkedIsPreferred(Effective(s).value);
  }

  lemma LastMarkedIsPreferred(d: BootState)
    requires d.Normal()
    ensures !InfoSpec(d, A).state.Unbootable? && !InfoSpec(d, B).state.Unbootable? ==>
              LastMarkedActive(d) == d.ActiveSlot()
  {
  }

  // ----- Marking a slot ----------------------------------------------------------------------

  /** What an operation with these faults makes of a slot. */
  function InfoSeen(x: SlotIndex, io: Io, s: Image): Reply {
    Exec(GetSlotInfo(x), io, s).0
  }

  /** The request for recovery, as an operation with these faults sees it. */
  predicate RequestSeen(io: Io, s: Image) {
    Seen(io, Effective(s)).Some? && Seen(io, Effective(s)).value.OneShotRecovery()
  }

  lemma SlotsSeen(io: Io, s: Image, x: SlotIndex)
    requires Seen(io, Effective(s)).Some?
    ensures InfoSeen(x, io, s) == InfoSpec(Seen(io, Effective(s)).value, x)
    ensures Exec(GetLastMarkedActive, io, s).0 == LastActive(LastMarkedActive(Seen(io, Effective(s)).value))
  {
    hide Exec, Effective, InfoSpec, LastMarkedActive;
    Answer(GetSlotInfo(x), io, s);
    Answer(GetLastMarkedActive, io, s);
  }

  lemma ActivateInfo(d: BootState, x: SlotIndex)
    requires d.Normal() && x != R
    ensures InfoSpec(Activate(d, x), x) == Info(Bootable(7), true)
    ensures InfoSpec(Activate(d, x), x.Counterpart()) == Info(InfoSpec(d, x.Counterpart()).state, false)
    ensures Activate(d, x).oneShot == d.oneShot
    ensures var y := x.Counterpart();
            && Activate(d, x).Slot(x).priority == 15
            && Activate(d, x).Slot(y).priority == if d.Slot(y).priority > 14 then 14 else d.Slot(y).priority
  {
  }

  /**
   A slot marked active gets the next seven boots; the other one keeps what it had, and gets the boots after that.
   */
  lemma MarkedActive(s: Image, io: Io, x: SlotIndex, n: nat)
    requires Exec(MarkActive(x), io, s).0 == Done
    ensures x != R && InfoSeen(x.Counterpart(), io, s).Info?
    ensures var s', y := Exec(MarkActive(x), io, s).1, x.Counterpart();
            var other := InfoSeen(y, io, s).state;
            && Ask(GetSlotInfo(x), s') == Info(Bootable(7), true)
            && Ask(GetSlotInfo(y), s') == Info(other, false)
            && (RecoveryPending(s') <==> RequestSeen(io, s))
            && (!RecoveryPending(s') ==>
                  NthBoot(s', n) == Boot(if n < 7 then x else if n < 7 + Tries(other) then y else R, false))
  {
    hide Exec, Effective, InfoSpec, Activate, BootState.Normal;
    Edited(MarkActive(x), io, s);
    var d, s', y := Seen(io, Effective(s)).value, Exec(MarkActive(x), io, s).1, x.Counterpart();
    ActivateInfo(d, x);
    SlotsSeen(io, s, y);
    Reported(s', x);
    Reported(s', y);
    if !RecoveryPending(s') {
      BootsForetold(s', n);
    }
  }

  lemma SucceedInfo(d: BootState, x: SlotIndex)
    requires d.Normal() && x != R && d.Slot(x).Bootable()
    ensures InfoSpec(Succeed(d, x), x) == Info(Successful, InfoSpec(d, x).active)
    ensures var other := InfoSpec(d, x.Counterpart());
            InfoSpec(Succeed(d, x), x.Counterpart()) ==
            Info(if other.state.Unbootable? then Unbootable else Bootable(7), other.active)
    ensures Succeed(d, x).oneShot == d.oneShot
  {
  }

  /** A slot marked successful is good: if it was the one to boot, it is booted for ever.  The other one is not good. */
  lemma MarkedSuccessful(s: Image, io: Io, x: SlotIndex, n: nat)
    requires Exec(MarkSuccessful(x), io, s).0 == Done
    ensures x != R && InfoSeen(x, io, s).Info? && InfoSeen(x.Counterpart(), io, s).Info?
    ensures var s', y := Exec(MarkSuccessful(x), io, s).1, x.Counterpart();
            var mine, other := InfoSeen(x, io, s), InfoSeen(y, io, s);
            && Ask(GetSlotInfo(x), s') == Info(Successful, mine.active)
            && Ask(GetSlotInfo(y), s') ==
               Info(if other.state.Unbootable? then Unbootable else Bootable(7), other.active)
            && (RecoveryPending(s') <==> RequestSeen(io, s))
            && (!RecoveryPending(s') && mine.active ==> NthBoot(s', n) == Boot(x, true))
  {
    hide Exec, Effective, InfoSpec, Succeed, BootState.Normal;
    Edited(MarkSuccessful(x), io, s);
    var d, s', y := Seen(io, Effective(s)).value, Exec(MarkSuccessful(x), io, s).1, x.Counterpart();
    SucceedInfo(d, x);
    SlotsSeen(io, s, x);
    SlotsSeen(io, s, y);
    Reported(s', x);
    Reported(s', y);
    InfoSpecActive(d, x);
    InfoSpecActive(d, y);
    if !RecoveryPending(s') {
      BootsForetold(s', n);
    }
  }

  /** Exactly the slots that are reported as unbootable, and R, cannot be marked successful. */
  lemma SuccessfulRefusedIff(s: Image, io: Io, x: SlotIndex)
    requires io.write1.None?
    ensures Exec(MarkSuccessful(x), io, s).0 ==
            if x == R then Failed(InvalidInput)
            else if InfoSeen(x, io, s).Failed? then InfoSeen(x, io, s)
            else if InfoSeen(x, io, s).Info? && InfoSeen(x, io, s).state.Unbootable? then Failed(InvalidInput)
            else Done
  {
    hide LoadSpec, InfoSpec, Serialize, Succeed, BootState.Normal, BootState.Slot, SlotData.Bootable;
    if LoadSpec(s, io.read).Ok? && x != R {
      LoadIsNormal(s, io.read);
      UnbootableIff(LoadSpec(s, io.read).value.0.boot, x);
    }
  }

  lemma UnbootableIff(d: BootState, x: SlotIndex)
    requires d.Normal() && x != R
    ensures InfoSpec(d, x).state.Unbootable? <==> !d.Slot(x).Bootable()
  {
    hide BootState.ActiveSlot;
  }

  lemma UnbootableInfo(d: BootState, x: SlotIndex)
    requires d.Normal() && x != R
    ensures var d', y := d.With(x, d.Slot(x).Unbootable()), x.Counterpart();
            && InfoSpec(d', x) == Info(Unbootable, false)
            && InfoSpec(d', y) == Info(InfoSpec(d, y).state, !InfoSpec(d, y).state.Unbootable?)
            && LastMarkedActive(d') == LastMarkedActive(d) && d'.oneShot == d.oneShot
  {
  }

  /** A slot marked unbootable is not booted again; it stays on record as last marked active if it was. */
  lemma MarkedUnbootable(s: Image, io: Io, x: SlotIndex, n: nat)
    requires Exec(MarkUnbootable(x), io, s).0 == Done
    ensures x != R && InfoSeen(x.Counterpart(), io, s).Info?
    ensures var s', y := Exec(MarkUnbootable(x), io, s).1, x.Counterpart();
            var other := InfoSeen(y, io, s).state;
            && Ask(GetSlotInfo(x), s') == Info(Unbootable, false)
            && Ask(GetSlotInfo(y), s') == Info(other, !other.Unbootable?)
            && Ask(GetLastMarkedActive, s') == Exec(GetLastMarkedActive, io, s).0
            && (RecoveryPending(s') <==> RequestSeen(io, s))
            && (!RecoveryPending(s') ==> NthBoot(s', n).Boot? && NthBoot(s', n).slot != x)
  {
    hide Exec, Effective, InfoSpec, LastMarkedActive, BootState.With, BootState.Slot, BootState.Normal;
    Edited(MarkUnbootable(x), io, s);
    var d, s', y := Seen(io, Effective(s)).value, Exec(MarkUnbootable(x), io, s).1, x.Counterpart();
    UnbootableInfo(d, x);
    SlotsSeen(io, s, y);
    SlotsSeen(WORKING, s', x);
    Reported(s', x);
    Reported(s', y);
    if !RecoveryPending(s') {
      BootsForetold(s', n);
    }
  }

  // ----- One-shot flags ----------------------------------------------------------------------

  /** Whatever is reported of the slots, an operation with these faults saw the same. */
  ghost predicate SameSlots(s: Image, io: Io, s': Image) {
    && (forall x :: Ask(GetSlotInfo(x), s') == InfoSeen(x, io, s))
    && Ask(GetLastMarkedActive, s') == Exec(GetLastMarkedActive, io, s).0
  }

  lemma FlagsOnly(op: Op, io: Io, s: Image)
    requires op.SetOneShotRecovery? || op.SetOneShotBootloader? || op.TakeOneShotFlags? || op.TakeOneShotBootloader?
    requires !Exec(op, io, s).0.Failed?
    ensures Seen(io, Effective(s)).Some? && Effective(Exec(op, io, s).1).Some?
    ensures EditsTo(op, Seen(io, Effective(s)).value, Exec(op, io, s).1, Exec(op, io, s).0)
    ensures SameSlots(s, io, Exec(op, io, s).1)
  {
    hide Exec, Effective, InfoSpec, LastMarkedActive, BootState.Normal;
    Edited(op, io, s);
    var s' := Exec(op, io, s).1;
    forall x ensures Ask(GetSlotInfo(x), s') == InfoSeen(x, io, s) {
      SlotsSeen(io, s, x);
      Reported(s', x);
      SameInfo(Seen(io, Effective(s)).value, Effective(s').value, x);
    }
    SlotsSeen(io, s, A);
    SlotsSeen(WORKING, s', A);
    SameInfo(Seen(io, Effective(s)).value, Effective(s').value, A);
  }

  lemma SameInfo(d: BootState, d': BootState, x: SlotIndex)
    requires d.a == d'.a && d.b == d'.b
    ensures InfoSpec(d, x) == InfoSpec(d', x) && LastMarkedActive(d) == LastMarkedActive(d')
  {
    hide SlotData.NormalizedPriority, SlotData.Bootable;
  }

  /** The reply of taking the bootloader flag, which never depends on the slots. */
  lemma BootloaderFlag(s: Image)
    requires Effective(s).Some?
    ensures Ask(TakeOneShotBootloader, s) == Flag(Effective(s).value.oneShot & 2 != 0)
    ensures Ask(TakeOneShotFlags, s) == Flags(Effective(s).value.oneShot)
  {
    hide Exec, Effective;
    Accepted(TakeOneShotBootloader, WORKING, s);
    Accepted(TakeOneShotFlags, WORKING, s);
    Edited(TakeOneShotBootloader, WORKING, s);
    Edited(TakeOneShotFlags, WORKING, s);
  }

  /** A request for the bootloader is there to be taken, once, and touches nothing else. */
  lemma BootloaderRequested(s: Image, io: Io, enable: bool)
    requires Exec(SetOneShotBootloader(enable), io, s).0 == Done
    ensures var s' := Exec(SetOneShotBootloader(enable), io, s).1;
            && Ask(TakeOneShotBootloader, s') == Flag(enable)
            && (RecoveryPending(s') <==> RequestSeen(io, s)) && SameSlots(s, io, s')
  {
    hide Exec, Effective, SameSlots, BootState.Normal;
    FlagsOnly(SetOneShotBootloader(enable), io, s);
    BootloaderFlag(Exec(SetOneShotBootloader(enable), io, s).1);
  }

  /** A request for recovery is pending, or no longer, and touches nothing else. */
  lemma RecoveryRequested(s: Image, io: Io, enable: bool)
    requires Exec(SetOneShotRecovery(enable), io, s).0 == Done
    ensures var s' := Exec(SetOneShotRecovery(enable), io, s).1;
            && (RecoveryPending(s') <==> enable) && SameSlots(s, io, s')
            && (io.read.None? ==> Ask(TakeOneShotBootloader, s') == Ask(TakeOneShotBootloader, s))
  {
    hide Exec, Effective, SameSlots, BootState.Normal;
    FlagsOnly(SetOneShotRecovery(enable), io, s);
    BootloaderFlag(Exec(SetOneShotRecovery(enable), io, s).1);
    if io.read.None? {
      BootloaderFlag(s);
    }
  }

  /** Taking the bootloader flag leaves the request for recovery. */
  lemma BootloaderTaken(s: Image, io: Io)
    requires !Exec(TakeOneShotBootloader, io, s).0.Failed?
    ensures var (reply, s') := Exec(TakeOneShotBootloader, io, s);
            && (io.read.None? ==> reply == Ask(TakeOneShotBootloader, s))
            && Ask(TakeOneShotBootloader, s') == Flag(false)
            && (RecoveryPending(s') <==> RequestSeen(io, s)) && SameSlots(s, io, s')
  {
    hide Exec, Effective, SameSlots, BootState.Normal;
    FlagsOnly(TakeOneShotBootloader, io, s);
    BootloaderFlag(Exec(TakeOneShotBootloader, io, s).1);
    if io.read.None? {
      BootloaderFlag(s);
    }
  }

  /** Taking all flags tells both requests, and leaves none. */
  lemma FlagsTaken(s: Image, io: Io)
    requires !Exec(TakeOneShotFlags, io, s).0.Failed?
    ensures var (reply, s') := Exec(TakeOneShotFlags, io, s);
            && reply.Flags? && (reply.flags & 1 != 0 <==> RequestSeen(io, s))
            && (io.read.None? ==> Ask(TakeOneShotBootloader, s) == Flag(reply.flags & 2 != 0))
            && Ask(TakeOneShotFlags, s') == Flags(0) && Ask(TakeOneShotBootloader, s') == Flag(false)
            && !RecoveryPending(s') && SameSlots(s, io, s')
  {
    hide Exec, Effective, SameSlots, BootState.Normal;
    FlagsOnly(TakeOneShotFlags, io, s);
    BootloaderFlag(Exec(TakeOneShotFlags, io, s).1);
    if io.read.None? {
      BootloaderFlag(s);
    }
  }

  // ----- A new device ------------------------------------------------------------------------

  /** Storage without valid metadata: seven boots of A, seven of B, then recovery. */
  lemma NewDevice(s: Image, n: nat)
    requires Deserialize(s) == Err(BadMagic) || Deserialize(s) == Err(BadChecksum)
    ensures !RecoveryPending(s)
    ensures NthBoot(s, n) == Boot(if n < 7 then A else if n < 14 then B else R, false)
  {
    assert Effective(s) == Some(DEFAULT_STATE) by {
      hide Deserialize;
    }
    hide Deserialize, Exec, WorkingBoot;
    BootConvergence(s, n);
  }
}
