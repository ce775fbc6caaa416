/** The A/B/R operations as the program runs them: on stored bytes, changing metadata field by field. */
module AbrOps {
  import opened Basics
  import opened Crc
  import opened AbrMetadata
  import opened Abr

  /** The persistent storage: 32 bytes whose accesses may fail. */
  class Storage {
    const bytes: array<Byte>

    ghost predicate Valid() {
      bytes.Length == 32
    }

    ghost function Contents(): Image
      reads bytes
      requires Valid()
    {
      bytes[..]
    }

    constructor (contents: Image)
      ensures Valid() && fresh(bytes) && Contents() == contents
    {
      bytes := new Byte[32](i requires 0 <= i < 32 => contents[i]);
    }

    method Read(fault: Option<Error>) returns (r: Result<Image>)
      requires Valid()
      ensures r == if fault.Some? then Err(fault.value) else Ok(Contents())
    {
      if fault.Some? {
        return Err(fault.value);
      }
      return Ok(bytes[..]);
    }

    method Write(data: Image, fault: Option<Error>) returns (r: Result<()>)
      requires Valid()
      modifies bytes
      ensures r == if fault.Some? then Err(fault.value) else Ok(())
      ensures Contents() == if fault.Some? then old(Contents()) else data
    {
      if fault.Some? {
        return Err(fault.value);
      }
      for i := 0 to 32
        invariant bytes[..i] == data[..i]
      {
        bytes[i] := data[i];
      }
      assert bytes[..] == bytes[..32] && data == data[..32];
      return Ok(());
    }
  }

  method ReadMetadata(st: Storage, fault: Option<Error>) returns (r: Result<Metadata>)
    requires st.Valid()
    ensures r == ReadSpec(st.Contents(), fault)
  {
    hide Crc32, FromBigEndian, Parse;
    var read := st.Read(fault);
    if read.Err? {
      return Err(read.error);
    }
    var d := Parse(read.value);
    if d.magic != MAGIC {
      return Err(BadMagic);
    }
    var crc := ComputeCrc32(read.value[..28]);
    if d.crc != crc {
      return Err(BadChecksum);
    }
    if d.major > MAJOR_VERSION {
      return Err(UnsupportedVersion);
    }
    return Ok(d);
  }

  method Load(st: Storage, fault: Option<Error>) returns (r: Result<(Metadata, Metadata)>)
    requires st.Valid()
    ensures r == LoadSpec(st.Contents(), fault)
  {
    hide ReadSpec, SlotData.Normalize;
    var orig: Metadata := NULL;
    var data: Metadata := DEFAULT;
    var read := ReadMetadata(st, fault);
    match read {
      case Ok(d) =>
        orig := d;
        data := d;
      case Err(e) =>
        if e == Other || e == UnsupportedVersion {
          return Err(e);
        }
    }
    data := data.(boot := data.boot.(a := data.boot.a.Normalize()));
    data := data.(boot := data.boot.(b := data.boot.b.Normalize()));
    return Ok((data, orig));
  }

  /** Also returns the metadata with its checksum field brought up to date. */
  method Save(st: Storage, d: Metadata, fault: Option<Error>) returns (r: Result<()>, d': Metadata)
    requires st.Valid()
    modifies st.bytes
    ensures (r, st.Contents()) == SaveSpec(old(st.Contents()), d, fault)
    ensures d' == Sealed(d)
  {
    hide Crc32, Covered, BigEndian;
    var covered := Covered(d);
    var crc := ComputeCrc32(covered);
    d' := d.(crc := crc);
    r := st.Write(covered + BigEndian(crc), fault);
  }

  method SaveIfChanged(st: Storage, d: Metadata, orig: Metadata, fault: Option<Error>) returns (r: Result<()>)
    requires st.Valid()
    modifies st.bytes
    ensures (r, st.Contents()) == SaveIfChangedSpec(old(st.Contents()), d, orig, fault)
  {
    hide SaveSpec, Sealed;
    if d == orig {
      return Ok(());
    }
    var d';
    r, d' := Save(st, d, fault);
  }

  method RunGetBootSlot(st: Storage, update: bool, io: Io) returns (slot: SlotIndex, successful: bool)
    requires st.Valid()
    modifies st.bytes
    ensures (Boot(slot, successful), st.Contents()) == Exec(GetBootSlot(update), io, old(st.Contents()))
  {
    hide LoadSpec, SaveIfChangedSpec, AfterBoot, BootState.OneShotRecovery, BootState.SetOneShotRecovery,
      BootState.ActiveSlot, BootState.Normal, Sealed, Serialize;
    successful := false;
    var loaded := Load(st, io.read);
    if loaded.Err? {
      return R, successful;
    }
    var (data, orig) := loaded.value;
    LoadIsNormal(st.Contents(), io.read);
    var fault := io.write1;
    if data.boot.OneShotRecovery() && update {
      RequestKeepsNormal(data.boot, false);
      SealedKeepsBoot(data.(boot := data.boot.SetOneShotRecovery(false)));
      data := data.(boot := data.boot.SetOneShotRecovery(false));
      var saved;
      saved, data := Save(st, data, io.write1);
      if saved.Ok? {
        return R, successful;
      }
      RequestKeepsNormal(data.boot, true);
      data := data.(boot := data.boot.SetOneShotRecovery(true));
      fault := io.write2;
    }
    slot := data.boot.ActiveSlot();
    if slot != R {
      successful := data.boot.Slot(slot).MarkedSuccessful();
    }
    if update {
      var boot := UpdateForBoot(data.boot, slot, successful);
      var saved := SaveIfChanged(st, data.(boot := boot), orig, fault);
    }
  }

  lemma RequestKeepsNormal(d: BootState, enable: bool)
    ensures d.Normal() ==> d.SetOneShotRecovery(enable).Normal()
  {
    hide SlotData.Normal;
  }

  lemma SealedKeepsBoot(d: Metadata)
    ensures Sealed(d).boot == d.boot
  {
    hide Crc32;
  }

  method UpdateForBoot(d: BootState, slot: SlotIndex, successful: bool) returns (d': BootState)
    requires d.Normal()
    requires slot == d.ActiveSlot() && successful == (slot != R && d.Slot(slot).MarkedSuccessful())
    ensures d' == AfterBoot(d)
  {
    d' := d;
    if slot != R && !successful {
      d' := d'.With(slot, Burn(d'.Slot(slot)));
    }
    if A != slot && d'.a.successful == 1 {
      d' := d'.(a := d'.a.(tries := MAX_TRIES, successful := 0));
    }
    if B != slot && d'.b.successful == 1 {
      d' := d'.(b := d'.b.(tries := MAX_TRIES, successful := 0));
    }
  }

  method RunMarkSlotActive(st: Storage, slot: SlotIndex, io: Io) returns (reply: Reply)
    requires st.Valid()
    modifies st.bytes
    ensures (reply, st.Contents()) == Exec(MarkActive(slot), io, old(st.Contents()))
  {
    hide LoadSpec, SaveIfChangedSpec, Activate;
    if slot == R {
      return Failed(InvalidInput);
    }
    var loaded := Load(st, io.read);
    if loaded.Err? {
      return Failed(loaded.error);
    }
    var (data, orig) := loaded.value;
    var boot := EditActive(data.boot, slot);
    var saved := SaveIfChanged(st, data.(boot := boot), orig, io.write1);
    reply := if saved.Ok? then Done else Failed(saved.error);
  }

  /** The assignments of `mark_slot_active`. */
  method EditActive(d: BootState, slot: SlotIndex) returns (boot: BootState)
    requires slot != R
    ensures boot == Activate(d, slot)
  {
    var other := slot.Counterpart();
    boot := d.With(slot, d.Slot(slot).(priority := MAX_PRIORITY));
    boot := boot.With(slot, boot.Slot(slot).(tries := MAX_TRIES));
    boot := boot.With(slot, boot.Slot(slot).(successful := 0));
    boot := boot.With(other, boot.Slot(other).(priority := Lesser(boot.Slot(other).priority, MAX_PRIORITY - 1)));
  }

  /** The assignments of `mark_slot_successful`. */
  method EditSuccessful(d: BootState, slot: SlotIndex) returns (boot: BootState)
    requires slot != R
    ensures boot == Succeed(d, slot)
  {
    var other := slot.Counterpart();
    boot := d.With(slot, d.Slot(slot).(tries := 0));
    boot := boot.With(slot, boot.Slot(slot).(successful := 1));
    if boot.Slot(other).Bootable() {
      boot := boot.With(other, boot.Slot(other).(tries := MAX_TRIES));
      boot := boot.With(other, boot.Slot(other).(successful := 0));
    }
  }

  method RunMarkSlotUnbootable(st: Storage, slot: SlotIndex, io: Io) returns (reply: Reply)
    requires st.Valid()
    modifies st.bytes
    ensures (reply, st.Contents()) == Exec(MarkUnbootable(slot), io, old(st.Contents()))
  {
    hide LoadSpec, SaveIfChangedSpec, BootState.With, BootState.Slot, SlotData.Unbootable;
    if slot == R {
      return Failed(InvalidInput);
    }
    var loaded := Load(st, io.read);
    if loaded.Err? {
      return Failed(loaded.error);
    }
    var (data, orig) := loaded.value;
    var boot := data.boot.With(slot, data.boot.Slot(slot).Unbootable());
    var saved := SaveIfChanged(st, data.(boot := boot), orig, io.write1);
    reply := if saved.Ok? then Done else Failed(saved.error);
  }

  method RunMarkSlotSuccessful(st: Storage, slot: SlotIndex, io: Io) returns (reply: Reply)
    requires st.Valid()
    modifies st.bytes
    ensures (reply, st.Contents()) == Exec(MarkSuccessful(slot), io, old(st.Contents()))
  {
    hide LoadSpec, SaveIfChangedSpec, Succeed, BootState.Slot, SlotData.Bootable;
    if slot == R {
      return Failed(InvalidInput);
    }
    var loaded := Load(st, io.read);
    if loaded.Err? {
      return Failed(loaded.error);
    }
    var (data, orig) := loaded.value;
    if !data.boot.Slot(slot).Bootable() {
      return Failed(InvalidInput);
    }
    var boot := EditSuccessful(data.boot, slot);
    var saved := SaveIfChanged(st, data.(boot := boot), orig, io.write1);
    reply := if saved.Ok? then Done else Failed(saved.error);
  }

  method RunSetOneShotRecovery(st: Storage, enable: bool, io: Io) returns (reply: Reply)
    requires st.Valid()
    modifies st.bytes
    ensures (reply, st.Contents()) == Exec(SetOneShotRecovery(enable), io, old(st.Contents()))
  {
    hide LoadSpec, SaveIfChangedSpec, BootState.SetOneShotRecovery;
    var loaded := Load(st, io.read);
    if loaded.Err? {
      return Failed(loaded.error);
    }
    var (data, orig) := loaded.value;
    var saved := SaveIfChanged(st, data.(boot := data.boot.SetOneShotRecovery(enable)), orig, io.write1);
    reply := if saved.Ok? then Done else Failed(saved.error);
  }

  method RunSetOneShotBootloader(st: Storage, enable: bool, io: Io) returns (reply: Reply)
    requires st.Valid()
    modifies st.bytes
    ensures (reply, st.Contents()) == Exec(SetOneShotBootloader(enable), io, old(st.Contents()))
  {
    hide LoadSpec, SaveIfChangedSpec, BootState.SetOneShotBootloader;
    var loaded := Load(st, io.read);
    if loaded.Err? {
      return Failed(loaded.error);
    }
    var (data, orig) := loaded.value;
    var saved := SaveIfChanged(st, data.(boot := data.boot.SetOneShotBootloader(enable)), orig, io.write1);
    reply := if saved.Ok? then Done else Failed(saved.error);
  }

  method RunGetAndClearOneShotFlag(st: Storage, io: Io) returns (reply: Reply)
    requires st.Valid()
    modifies st.bytes
    ensures (reply, st.Contents()) == Exec(TakeOneShotFlags, io, old(st.Contents()))
  {
    hide LoadSpec, SaveIfChangedSpec;
    var loaded := Load(st, io.read);
    if loaded.Err? {
      return Failed(loaded.error);
    }
    var (data, orig) := loaded.value;
    var flags := data.boot.oneShot;
    var saved := SaveIfChanged(st, data.(boot := data.boot.(oneShot := 0)), orig, io.write1);
    reply := if saved.Ok? then Flags(flags) else Failed(saved.error);
  }

  method RunGetAndClearOneShotBootloader(st: Storage, io: Io) returns (reply: Reply)
    requires st.Valid()
    modifies st.bytes
    ensures (reply, st.Contents()) == Exec(TakeOneShotBootloader, io, old(st.Contents()))
  {
    hide LoadSpec, SaveIfChangedSpec, BootState.SetOneShotBootloader;
    var loaded := Load(st, io.read);
    if loaded.Err? {
      return Failed(loaded.error);
    }
    var (data, orig) := loaded.value;
    var flags := data.boot.oneShot;
    var saved := SaveIfChanged(st, data.(boot := data.boot.SetOneShotBootloader(false)), orig, io.write1);
    reply := if saved.Ok? then Flag(flags & ONE_SHOT_BOOTLOADER != 0) else Failed(saved.error);
  }

  method RunGetSlotLastMarkedActive(st: Storage, io: Io) returns (reply: Reply)
    requires st.Valid()
    ensures (reply, st.Contents()) == Exec(GetLastMarkedActive, io, st.Contents())
  {
    hide LoadSpec, SaveIfChangedSpec;
    var loaded := Load(st, io.read);
    if loaded.Err? {
      return Failed(loaded.error);
    }
    var boot := loaded.value.0.boot;
    if boot.b.priority > boot.a.priority {
      return LastActive(B);
    }
    return LastActive(A);
  }

  method RunGetSlotInfo(st: Storage, slot: SlotIndex, io: Io) returns (reply: Reply)
    requires st.Valid()
    ensures (reply, st.Contents()) == Exec(GetSlotInfo(slot), io, st.Contents())
  {
    hide LoadSpec, SaveIfChangedSpec, InfoSpec;
    var loaded := Load(st, io.read);
    if loaded.Err? {
      return Failed(loaded.error);
    }
    reply := SlotInfo(loaded.value.0.boot, slot);
  }

  method SlotInfo(boot: BootState, slot: SlotIndex) returns (reply: Reply)
    ensures reply == InfoSpec(boot, slot)
    ensures reply.active <==> Choice(boot).slot == slot
  {
    if slot == R {
      return Info(Successful, boot.ActiveSlot() == R);
    }
    var state;
    if boot.Slot(slot).successful == 1 {
      state := Successful;
    } else if boot.Slot(slot).Bootable() {
      state := Bootable(boot.Slot(slot).tries);
    } else {
      state := Unbootable;
    }
    return Info(state, boot.ActiveSlot() == slot);
  }
}
