/** The A/B/R metadata: its fields, its 32-byte wire format, and how a slot is normalized. */
module AbrMetadata {
  import opened Crc

  const MAGIC: seq<Byte> := [0x00, 0x41, 0x42, 0x30]
  const MAJOR_VERSION: Byte := 2
  const MINOR_VERSION: Byte := 2
  const MAX_PRIORITY: Byte := 15
  const MAX_TRIES: Byte := 7
  const ONE_SHOT_RECOVERY: Byte := 1
  const ONE_SHOT_BOOTLOADER: Byte := 2

  /** What reading metadata can report; `Device` stands for every error without a case of its own. */
  datatype Error = BadMagic | BadChecksum | UnsupportedVersion | InvalidInput | Other | Device

  datatype Result<+T> = Ok(value: T) | Err(error: Error)

  datatype SlotIndex = A | B | R {
    function Counterpart(): SlotIndex
      requires this != R
    {
      if this == A then B else A
    }
  }

  // ----- Slots -------------------------------------------------------------------------------

  datatype SlotData = SlotData(priority: Byte, tries: Byte, successful: Byte, reserved: Byte) {

    predicate Bootable() {
      priority > 0 && (successful == 1 || tries > 0)
    }

    predicate MarkedSuccessful() {
      successful == 1
    }

    /** Keeps the priority: the slot that was last marked active stays on record. */
    function Unbootable(): SlotData {
      this.(tries := 0, successful := 0)
    }

    function Normalize(): SlotData {
      if priority > 0 then
        var s := if tries == 0 && successful == 0 then Unbootable() else this;
        var s := if s.tries > 0 && s.successful == 1 then s.(tries := MAX_TRIES, successful := 0) else s;
        s.(priority := Lesser(s.priority, MAX_PRIORITY), tries := Lesser(s.tries, MAX_TRIES))
      else
        Unbootable()
    }

    function NormalizedPriority(): Byte {
      if Bootable() then priority else 0
    }

    /** Normal form, said without reference to `Normalize`. */
    predicate Normal() {
      && priority <= MAX_PRIORITY
      && tries <= MAX_TRIES
      && (priority == 0 ==> tries == 0 && successful == 0)
      && (successful == 1 ==> tries == 0)
    }
  }

  function Lesser(x: Byte, y: Byte): Byte { if x < y then x else y }

  /** Normalizing always gives a normal slot, changes nothing exactly when it was one... */
  lemma NormalizeIsProjection(s: SlotData)
    ensures s.Normalize().Normal()
    ensures s.Normalize() == s <==> s.Normal()
  {
    hide SlotData.Normalize, SlotData.Normal;
    NormalizeIsNormal(s);
    if s.Normal() {
      NormalStays(s);
    }
  }

  lemma NormalizeIsNormal(s: SlotData)
    ensures s.Normalize().Normal()
  {
  }

  lemma NormalStays(s: SlotData)
    requires s.Normal()
    ensures s.Normalize() == s
  {
  }

  /** ...and never changes whether a slot can be booted. */
  lemma NormalizeKeepsBootability(s: SlotData)
    ensures s.Normalize().Bootable() == s.Bootable()
    ensures s.Normalize().priority == Lesser(s.priority, MAX_PRIORITY)
  {
  }

  /** A slot out of use has nothing left; one that is good but has tries left too is taken for a new one. */
  lemma NormalizedFields(s: SlotData)
    ensures var n := s.Normalize();
            && n.reserved == s.reserved
            && (s.priority == 0 ==> n.tries == 0 && n.successful == 0)
            && (s.priority > 0 && s.successful == 1 && s.tries > 0 ==> n.tries == 7 && n.successful == 0)
            && (s.priority > 0 && (s.successful != 1 || s.tries == 0) ==>
                  n.successful == s.successful && n.tries == if s.tries > 7 then 7 else s.tries)
  {
  }

  // ----- Metadata and its wire format --------------------------------------------------------

  /** The fields the operations work on. */
  datatype BootState = BootState(a: SlotData, b: SlotData, oneShot: Byte) {

    function Slot(i: SlotIndex): SlotData
      requires i != R
    {
      if i == A then a else b
    }

    function With(i: SlotIndex, s: SlotData): BootState
      requires i != R
    {
      if i == A then this.(a := s) else this.(b := s)
    }

    function Normalize(): BootState {
      this.(a := a.Normalize(), b := b.Normalize())
    }

    predicate Normal() {
      a.Normal() && b.Normal()
    }

    function ActiveSlot(): SlotIndex {
      if b.NormalizedPriority() > a.NormalizedPriority() then B
      else if a.NormalizedPriority() > 0 then A
      else R
    }

    predicate OneShotRecovery() {
      oneShot & ONE_SHOT_RECOVERY != 0
    }

    function SetOneShotRecovery(enable: bool): BootState {
      this.(oneShot := if enable then oneShot | ONE_SHOT_RECOVERY else oneShot & !ONE_SHOT_RECOVERY)
    }

    function SetOneShotBootloader(enable: bool): BootState {
      this.(oneShot := if enable then oneShot | ONE_SHOT_BOOTLOADER else oneShot & !ONE_SHOT_BOOTLOADER)
    }
  }

  const DEFAULT_STATE := BootState(
    SlotData(MAX_PRIORITY, MAX_TRIES, 0, 0), SlotData(MAX_PRIORITY - 1, MAX_TRIES, 0, 0), 0)

  datatype AbrData = AbrData(
    magic: seq<Byte>, major: Byte, minor: Byte, reserved: seq<Byte>,
    boot: BootState, reserved2: seq<Byte>, crc: bv32)

  type Metadata = d: AbrData | |d.magic| == 4 && |d.reserved| == 2 && |d.reserved2| == 11 witness DEFAULT

  const DEFAULT: AbrData := AbrData(
    MAGIC, MAJOR_VERSION, MINOR_VERSION, [0, 0], DEFAULT_STATE, [0, 0, 0, 0, 0, 0, 0, 0, 0, 0, 0], 0)

  /** Never equal to metadata that was read: its magic is wrong. */
  const NULL: AbrData := DEFAULT.(magic := [0, 0, 0, 0])

  const ZEROES: seq<Byte> := seq(32, _ => 0)
  type Image = s: seq<Byte> | |s| == 32 witness ZEROES

  function BigEndian(v: bv32): (s: seq<Byte>)
    ensures |s| == 4
    ensures FromBigEndian(s) == v
  {
    [(v >> 24) as Byte, ((v >> 16) & 0xFF) as Byte, ((v >> 8) & 0xFF) as Byte, (v & 0xFF) as Byte]
  }

  function FromBigEndian(s: seq<Byte>): bv32
    requires |s| == 4
  {
    ((s[0] as bv32) << 24) | ((s[1] as bv32) << 16) | ((s[2] as bv32) << 8) | (s[3] as bv32)
  }

  function SlotBytes(s: SlotData): (r: seq<Byte>)
    ensures |r| == 4
  {
    [s.priority, s.tries, s.successful, s.reserved]
  }

  function ParseSlot(s: seq<Byte>): SlotData
    requires |s| == 4
  {
    SlotData(s[0], s[1], s[2], s[3])
  }

  /** The 28 bytes the checksum covers. */
  function Covered(d: Metadata): (s: seq<Byte>)
    ensures |s| == 28
  {
    d.magic + [d.major, d.minor] + d.reserved + SlotBytes(d.boot.a) + SlotBytes(d.boot.b)
    + [d.boot.oneShot] + d.reserved2
  }

  /** The metadata that is written: the checksum field is brought up to date first. */
  function Sealed(d: Metadata): Metadata {
    d.(crc := Crc32(Covered(d)))
  }

  function Serialize(d: Metadata): Image {
    Covered(d) + BigEndian(Crc32(Covered(d)))
  }

  function Parse(s: Image): Metadata {
    AbrData(s[..4], s[4], s[5], s[6..8],
            BootState(ParseSlot(s[8..12]), ParseSlot(s[12..16]), s[16]), s[17..28],
            FromBigEndian(s[28..32]))
  }

  function Deserialize(s: Image): Result<Metadata> {
    var d := Parse(s);
    if d.magic != MAGIC then Err(BadMagic)
    else if d.crc != Crc32(s[..28]) then Err(BadChecksum)
    else if d.major > MAJOR_VERSION then Err(UnsupportedVersion)
    else Ok(d)
  }

  lemma ParseInvertsLayout(d: Metadata, s: Image)
    requires s[..28] == Covered(d)
    ensures Parse(s) == d.(crc := FromBigEndian(s[28..32]))
  {
    hide Covered, FromBigEndian;
    var c := s[..28];
    CoveredParts(d);
    assert s[..4] == c[..4] && s[4] == c[4] && s[5] == c[5] && s[6..8] == c[6..8];
    assert s[8..12] == c[8..12] && s[12..16] == c[12..16] && s[16] == c[16] && s[17..28] == c[17..28];
    ParseSlotBytes(d.boot.a);
    ParseSlotBytes(d.boot.b);
  }

  lemma ParseSlotBytes(s: SlotData)
    ensures ParseSlot(SlotBytes(s)) == s
  {
  }

  /** Where each field lies in the covered bytes. */
  lemma CoveredParts(d: Metadata)
    ensures var c := Covered(d);
      && c[..4] == d.magic && c[4] == d.major && c[5] == d.minor && c[6..8] == d.reserved
      && c[8..12] == SlotBytes(d.boot.a) && c[12..16] == SlotBytes(d.boot.b)
      && c[16] == d.boot.oneShot && c[17..28] == d.reserved2
  {
    hide SlotBytes;
    var p1 := d.magic + [d.major, d.minor];
    var p2 := p1 + d.reserved;
    var p3 := p2 + SlotBytes(d.boot.a);
    var p4 := p3 + SlotBytes(d.boot.b);
    var p5 := p4 + [d.boot.oneShot];
    var c := p5 + d.reserved2;
    Appended(p5, d.reserved2);
    Appended(p4, [d.boot.oneShot]);
    Appended(p3, SlotBytes(d.boot.b));
    Appended(p2, SlotBytes(d.boot.a));
    Appended(p1, d.reserved);
    Appended(d.magic, [d.major, d.minor]);
    assert c[12..16] == p5[12..16] == p4[12..16];
    assert c[8..12] == p5[8..12] == p4[8..12] == p3[8..12];
    assert c[6..8] == p5[6..8] == p4[6..8] == p3[6..8] == p2[6..8];
    assert c[..4] == p5[..4] == p4[..4] == p3[..4] == p2[..4] == p1[..4];
    assert c[4] == p5[4] == p4[4] == p3[4] == p2[4] == p1[4] && c[5] == p5[5] == p4[5] == p3[5] == p2[5] == p1[5];
    assert c[16] == p5[16];
  }

  /** Where each field lies in storage, byte by byte; the checksum is kept most significant byte first. */
  lemma FieldBytes(d: Metadata)
    ensures var s := Serialize(d);
      && s[..4] == d.magic && s[4] == d.major && s[5] == d.minor
      && s[8] == d.boot.a.priority && s[9] == d.boot.a.tries && s[10] == d.boot.a.successful
      && s[12] == d.boot.b.priority && s[13] == d.boot.b.tries && s[14] == d.boot.b.successful
      && s[16] == d.boot.oneShot
    ensures var s, crc := Serialize(d), Crc32(Covered(d));
      && s[..28] == Covered(d)
      && s[28] as bv32 == crc >> 24 && s[29] as bv32 == (crc >> 16) & 0xFF
      && s[30] as bv32 == (crc >> 8) & 0xFF && s[31] as bv32 == crc & 0xFF
  {
    hide Covered, Crc32;
    var s, c, crc := Serialize(d), Covered(d), Crc32(Covered(d));
    CoveredParts(d);
    assert s[..28] == c;
    forall i | 0 <= i < 28 ensures s[i] == c[i] {
    }
    assert s[..4] == c[..4];
    assert c[8..12] == SlotBytes(d.boot.a) && c[12..16] == SlotBytes(d.boot.b);
    assert c[8] == c[8..12][0] && c[9] == c[8..12][1] && c[10] == c[8..12][2];
    assert c[12] == c[12..16][0] && c[13] == c[12..16][1] && c[14] == c[12..16][2];
    WordBytes(crc);
  }

  lemma WordBytes(v: bv32)
    ensures var s := BigEndian(v);
      && s[0] as bv32 == v >> 24 && s[1] as bv32 == (v >> 16) & 0xFF
      && s[2] as bv32 == (v >> 8) & 0xFF && s[3] as bv32 == v & 0xFF
  {
  }

  /** What a new device gets: format 2.2, A before B, seven tries each. */
  lemma DefaultBytes()
    ensures Serialize(DEFAULT)[..17] == [0x00, 0x41, 0x42, 0x30, 2, 2, 0, 0, 15, 7, 0, 0, 14, 7, 0, 0, 0]
  {
    hide Crc32;
  }

  lemma Appended(a: seq<Byte>, b: seq<Byte>)
    ensures (a + b)[..|a|] == a && (a + b)[|a|..|a| + |b|] == b
    ensures forall i, j :: 0 <= i <= j <= |a| ==> (a + b)[i..j] == a[i..j]
    ensures forall i :: 0 <= i < |a| ==> (a + b)[i] == a[i]
    ensures forall i :: 0 <= i < |b| ==> (a + b)[|a| + i] == b[i]
  {
  }

  lemma LayoutInvertsParse(s: Image)
    ensures Covered(Parse(s)) == s[..28]
  {
    hide FromBigEndian;
    var c := s[..28];
    SlotBytesParse(s[8..12]);
    SlotBytesParse(s[12..16]);
    assert c == s[..4] + [s[4], s[5]] + s[6..8] + s[8..12] + s[12..16] + [s[16]] + s[17..28];
  }

  lemma SlotBytesParse(s: seq<Byte>)
    requires |s| == 4
    ensures SlotBytes(ParseSlot(s)) == s
  {
  }

  /** Metadata this version of the program may write. */
  predicate Supported(d: Metadata) {
    d.magic == MAGIC && d.major <= MAJOR_VERSION
  }

  lemma SerializeLayout(d: Metadata)
    ensures Serialize(d)[..28] == Covered(d)
    ensures FromBigEndian(Serialize(d)[28..32]) == Crc32(Covered(d))
  {
    hide Covered, Crc32, BigEndian, FromBigEndian;
    assert Serialize(d)[28..32] == BigEndian(Crc32(Covered(d)));
  }

  /** Reading back what was written. */
  lemma DeserializeSerialize(d: Metadata)
    requires Supported(d)
    ensures Deserialize(Serialize(d)) == Ok(Sealed(d))
  {
    hide Covered, Crc32, FromBigEndian, Parse, Serialize;
    SerializeLayout(d);
    ParseInvertsLayout(d, Serialize(d));
  }

  lemma BytesOfWord(b0: Byte, b1: Byte, b2: Byte, b3: Byte)
    ensures BigEndian(FromBigEndian([b0, b1, b2, b3])) == [b0, b1, b2, b3]
  {
  }

  /** Writing back what was read changes nothing, neither in storage nor in the metadata. */
  lemma SerializeDeserialize(s: Image)
    requires Deserialize(s).Ok?
    ensures Supported(Deserialize(s).value)
    ensures Sealed(Deserialize(s).value) == Deserialize(s).value
    ensures Serialize(Deserialize(s).value) == s
  {
    hide Covered, Crc32, BigEndian, FromBigEndian;
    LayoutInvertsParse(s);
    assert s[28..32] == [s[28], s[29], s[30], s[31]];
    BytesOfWord(s[28], s[29], s[30], s[31]);
    assert s == s[..28] + s[28..32];
  }

  /** Damage to any four neighbouring covered bytes of valid metadata is always noticed. */
  lemma DamageIsDetected(s: Image, s': Image, k: nat)
    requires Deserialize(s).Ok? || Deserialize(s).error == UnsupportedVersion
    requires s != s'
    requires k <= 24
    requires forall i :: 0 <= i < 32 && !(k <= i < k + 4) ==> s[i] == s'[i]
    ensures Deserialize(s') == Err(BadMagic) || Deserialize(s') == Err(BadChecksum)
  {
    hide Crc32, FromBigEndian;
    var c, c' := s[..28], s'[..28];
    assert c != c' by {
      assert s[28..32] == s'[28..32];
      assert s == c + s[28..32] && s' == c' + s'[28..32];
    }
    assert DifferWithin(c, c', k);
    if Crc32(c) == Crc32(c') {
      BurstChangesCrc(c, c', k);
    }
    assert s[28..32] == s'[28..32];
  }
}
