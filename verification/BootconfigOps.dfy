/** The two writers of a bootconfig section: `BootConfigBuilder` and libxbc. */
module BootconfigOps {
  import opened Basics
  import opened ByteOrder
  import opened Bootconfig

  datatype Error = BufferTooSmall(needed: Option<nat>) | Other

  datatype Outcome<T> = Ok(value: T) | Err(error: Error)

  // ----- Memory -------------------------------------------------------------------------------

  /** Copies bytes into memory. */
  method Copy(mem: array<byte>, at: nat, bytes: seq<byte>)
    requires at + |bytes| <= mem.Length
    modifies mem
    ensures mem[..] == Spliced(old(mem[..]), at, bytes)
  {
    forall i | 0 <= i < |bytes| {
      mem[at + i] := bytes[i];
    }
  }

  /** The sum of the bytes, in 32 bits. */
  method Checksum(mem: array<byte>, start: nat, size: nat) returns (sum: nat)
    requires start + size <= mem.Length
    ensures sum == Sum(mem[start..start + size]) % TWO32
  {
    sum := 0;
    var i := 0;
    while i < size
      invariant 0 <= i <= size && sum == Sum(mem[start..start + i]) % TWO32
    {
      SumSnoc(mem[..], start, i);
      assert mem[..][start..start + i] == mem[start..start + i];
      assert mem[..][start..start + i + 1] == mem[start..start + i + 1];
      sum := (sum + mem[start + i]) % TWO32;
      i := i + 1;
    }
  }

  lemma SumSnoc(m: seq<byte>, start: nat, i: nat)
    requires start + i < |m|
    ensures Sum(m[start..start + i + 1]) == Sum(m[start..start + i]) + m[start + i]
    ensures (Sum(m[start..start + i]) % TWO32 + m[start + i]) % TWO32 == Sum(m[start..start + i + 1]) % TWO32
  {
    assert m[start..start + i + 1][..i] == m[start..start + i];
  }

  /** Writes size, checksum and magic behind a body. */
  method WriteTrailer(mem: array<byte>, start: nat, size: nat)
    requires start + size + TRAILER_SIZE <= mem.Length && size < TWO32
    modifies mem
    ensures mem[..] == Spliced(old(mem[..]), start, Image(old(mem[start..start + size])))
  {
    hide Spliced, ToLe, Sum;
    ghost var m, body := mem[..], mem[start..start + size];
    var end := start + size;
    var sum := Checksum(mem, start, size);
    var le, ls := ToLe(size, 4), ToLe(sum, 4);
    assert mem[..] == m;
    Copy(mem, end, le);
    Copy(mem, end + 4, ls);
    Copy(mem, end + 8, MAGIC);
    SplicedBehind(m, end, le, ls);
    SplicedBehind(m, end, le + ls, MAGIC);
    assert m[start..end] == body;
    SplicedAfter(m, start, size, le + ls + MAGIC);
  }

  // ----- libxbc -------------------------------------------------------------------------------

  /** The value as a 32-bit two's complement number. */
  function Int32(x: int): (r: int)
    ensures -0x8000_0000 <= r < 0x8000_0000 && (r - x) % TWO32 == 0
    ensures -0x8000_0000 <= x < 0x8000_0000 ==> r == x
  {
    (x + 0x8000_0000) % TWO32 - 0x8000_0000
  }

  /** The sizes that the 32-bit sums denote. */
  lemma Widths(size: nat, applied: int)
    requires 0 <= size + applied < TWO32
    ensures (size + Int32(applied)) % TWO32 == size + applied
  {
  }

  lemma Int32Sums(a: int, b: int)
    ensures Int32(Int32(a) + b) == Int32(a + b)
  {
  }

  method IsTrailerPresent(mem: array<byte>, end: nat) returns (r: bool)
    requires 12 <= end <= mem.Length
    ensures r == EndsInMagic(mem[..end])
  {
    r := mem[end - 12..end] == MAGIC;
    assert mem[..end][end - 12..] == mem[end - 12..end];
  }

  /** Adds the trailer to a section; a null address is refused. */
  method AddBootConfigTrailer(mem: array<byte>, start: nat, size: nat) returns (applied: int)
    requires start + size <= mem.Length && size < TWO32
    requires start != 0 && size != 0 ==> 12 <= start && start + size + TRAILER_SIZE <= mem.Length
    modifies mem
    ensures start == 0 ==> applied == -1 && mem[..] == old(mem[..])
    ensures start != 0 ==>
      var after := Closed(old(mem[..start]), old(mem[start..start + size]));
      && applied == |after| - size && start + |after| <= mem.Length
      && mem[..] == Spliced(old(mem[..]), start, after)
  {
    hide EndsInMagic, Image, Spliced;
    if start == 0 {
      return -1;
    }
    ghost var m := mem[..];
    assert mem[..start + size] == mem[..start] + mem[start..start + size];
    assert m[start..start + size] == mem[start..start + size];
    SplicedSame(m, start, size);
    if size == 0 {
      return 0;
    }
    var present := IsTrailerPresent(mem, start + size);
    if present {
      return 0;
    }
    WriteTrailer(mem, start, size);
    return 20;
  }

  /** Puts parameters in the place of the trailer, if there is one. */
  method ReplaceTrailer(params: seq<byte>, mem: array<byte>, start: nat, size: nat) returns (applied: int)
    requires 12 <= start && start + size + |params| <= mem.Length
    requires EndsInMagic(mem[..start] + mem[start..start + size]) ==> size >= TRAILER_SIZE
    modifies mem
    ensures var body := Stripped(old(mem[..start]), old(mem[start..start + size])) + params;
      applied == |body| - size && mem[..] == Spliced(old(mem[..]), start, body)
  {
    hide EndsInMagic, Spliced;
    ghost var m, pre, section := mem[..], mem[..start], mem[start..start + size];
    assert mem[..start + size] == pre + section;
    applied := 0;
    var end := start + size;
    var present := IsTrailerPresent(mem, end);
    if present {
      end := end - TRAILER_SIZE;
      applied := applied - TRAILER_SIZE;
    }
    assert m[start..start + (end - start)] == Stripped(pre, section);
    SplicedAfter(m, start, end - start, params);
    Copy(mem, end, params);
    applied := applied + |params|;
  }

  lemma StrippedFits(pre: seq<byte>, section: seq<byte>)
    requires EndsInMagic(pre + section) ==> |section| >= TRAILER_SIZE
    ensures |section| <= |Stripped(pre, section)| + TRAILER_SIZE == Reserved(pre, section)
  {
    hide EndsInMagic;
  }

  /** Puts parameters and then a trailer behind the body. */
  method AppendParameters(params: seq<byte>, mem: array<byte>, start: nat, size: nat) returns (applied: int)
    requires 12 <= start && start + size <= mem.Length && params != [] && size + |params| < TWO32
    requires start + Reserved(mem[..start], mem[start..start + size]) + |params| <= mem.Length
    requires EndsInMagic(mem[..start] + mem[start..start + size]) ==> size >= TRAILER_SIZE
    modifies mem
    ensures var after := Closed(old(mem[..start]), Stripped(old(mem[..start]), old(mem[start..start + size])) + params);
      && applied == Int32(|after| - size)
      && start + |after| <= mem.Length && mem[..] == Spliced(old(mem[..]), start, after)
  {
    hide *;
    ghost var m, pre := mem[..], mem[..start];
    ghost var body := Stripped(pre, mem[start..start + size]) + params;
    StrippedFits(pre, mem[start..start + size]);
    var grown := ReplaceTrailer(params, mem, start, size);
    SplicedReads(m, start, body);
    assert mem[..start] == mem[..][..start] == m[..start] == pre;
    assert mem[start..start + |body|] == mem[..][start..start + |body|] == body;
    Widths(size, grown);
    applied := Int32(grown);
    var newSize := (size + applied) % TWO32;
    var trailer := AddBootConfigTrailer(mem, start, newSize);
    SplicedOver(m, start, body, Closed(pre, body));
    Int32Sums(grown, trailer);
    applied := Int32(applied + trailer);
  }

  /** Adds parameters and a fresh trailer; null addresses are refused. */
  method AddBootConfigParameters(params: Option<seq<byte>>, mem: array<byte>, start: nat, size: nat)
    returns (applied: int)
    requires start + size <= mem.Length && size < TWO32
    requires params.Some? && params.value != [] && start != 0 ==>
      && 12 <= start && size + |params.value| < TWO32
      && start + Reserved(mem[..start], mem[start..start + size]) + |params.value| <= mem.Length
      && (EndsInMagic(mem[..start] + mem[start..start + size]) ==> size >= TRAILER_SIZE)
    modifies mem
    ensures params.None? || start == 0 ==> applied == -1 && mem[..] == old(mem[..])
    ensures params.Some? && start != 0 ==>
      var after := Append(old(mem[..start]), old(mem[start..start + size]), params.value);
      && applied == Int32(|after| - size)
      && start + |after| <= mem.Length && mem[..] == Spliced(old(mem[..]), start, after)
  {
    hide EndsInMagic, Stripped, Closed, Spliced, Reserved;
    if params.None? || start == 0 {
      return -1;
    }
    if params.value == [] {
      SplicedSame(mem[..], start, size);
      assert mem[..][start..start + size] == mem[start..start + size];
      return 0;
    }
    applied := AppendParameters(params.value, mem, start, size);
  }

  // ----- The Rust builder ---------------------------------------------------------------------

  class BootConfigBuilder {
    const buffer: array<byte>
    var currentSize: nat

    ghost predicate Valid()
      reads this
    {
      currentSize + TRAILER_SIZE <= buffer.Length
    }

    ghost function Body(): seq<byte>
      requires Valid()
      reads this, buffer
    {
      buffer[..currentSize]
    }

    /** The whole config, trailer included. */
    function ConfigBytes(): seq<byte>
      requires Valid()
      reads this, buffer
    {
      buffer[..currentSize + TRAILER_SIZE]
    }

    constructor Over(buffer: array<byte>)
      requires TRAILER_SIZE <= buffer.Length
      ensures this.buffer == buffer && currentSize == 0
    {
      this.buffer := buffer;
      currentSize := 0;
    }

    static method New(buffer: array<byte>) returns (r: Outcome<BootConfigBuilder>)
      modifies buffer
      ensures r.Ok? <==> TRAILER_SIZE <= buffer.Length
      ensures r.Ok? ==> fresh(r.value) && r.value.buffer == buffer && r.value.Valid()
      ensures r.Ok? ==> r.value.Body() == [] && r.value.ConfigBytes() == Image([])
      ensures r.Err? ==> r.error == BufferTooSmall(Some(TRAILER_SIZE)) && buffer[..] == old(buffer[..])
    {
      if buffer.Length < TRAILER_SIZE {
        return Err(BufferTooSmall(Some(TRAILER_SIZE)));
      }
      var b := new BootConfigBuilder.Over(buffer);
      assert buffer[0..0] == [] && buffer[..0] == [];
      var _ := b.UpdateTrailer();
      return Ok(b);
    }

    function RemainingCapacity(): (n: nat)
      requires Valid()
      reads this
    {
      buffer.Length - currentSize - TRAILER_SIZE
    }

    /** Writes the trailer, provided that the size can be told in it. */
    method UpdateTrailer() returns (r: Outcome<()>)
      requires Valid()
      modifies buffer
      ensures r.Ok? <==> currentSize < TWO32
      ensures r.Ok? ==> Body() == old(Body()) && ConfigBytes() == Image(old(Body()))
      ensures r.Ok? ==> buffer[currentSize + TRAILER_SIZE..] == old(buffer[currentSize + TRAILER_SIZE..])
      ensures r.Err? ==> r.error == Other && buffer[..] == old(buffer[..])
    {
      if currentSize >= TWO32 {
        return Err(Other);
      }
      ghost var body := buffer[..currentSize];
      ghost var m := buffer[..];
      assert buffer[0..0 + currentSize] == body;
      WriteTrailer(buffer, 0, currentSize);
      SplicedReads(m, 0, Image(body));
      assert buffer[..currentSize + TRAILER_SIZE] == Image(body);
      assert buffer[..currentSize] == Image(body)[..currentSize] == body;
      return Ok(());
    }

    /**
     * Appends what a reader wrote. The reader gets all of the buffer behind the body but the last bytes, so it
     * writes over the trailer; it leaves `written` there and answers how much of it counts, or fails.
     */
    method AddWith(written: seq<byte>, answer: Outcome<nat>) returns (r: Outcome<()>)
      requires Valid() && |written| == RemainingCapacity()
      requires answer.Ok? ==> answer.value <= |written|
      modifies this`currentSize, buffer
      ensures Valid()
      ensures r.Ok? <==> answer.Ok? && old(currentSize) + answer.value < TWO32
      ensures answer.Ok? ==> Body() == old(Body()) + written[..answer.value]
      ensures r.Ok? ==> ConfigBytes() == Image(Body())
      ensures answer.Ok? && r.Err? ==> r.error == Other
      ensures answer.Err? ==> r == Err(answer.error) && Body() == old(Body())
      ensures answer.Err? ==>
        (ConfigBytes() == old(ConfigBytes()) <==> Spares(old(ConfigBytes()[currentSize..]), written))
    {
      hide Image, Spares;
      ghost var body, trailer := Body(), ConfigBytes()[currentSize..];
      assert ConfigBytes() == body + trailer;
      Copy(buffer, currentSize, written);
      if answer.Err? {
        Overlap(body, trailer, written, ConfigBytes());
        return Err(answer.error);
      }
      assert buffer[..currentSize + answer.value] == body + written[..answer.value];
      currentSize := currentSize + answer.value;
      r := UpdateTrailer();
      assert r.Err? ==> buffer[..currentSize] == body + written[..answer.value];
    }

    /** Appends a text: all of it, with its trailer, or nothing, unless it brings the size to 4 GiB. */
    method Add(config: seq<byte>) returns (r: Outcome<()>)
      requires Valid()
      modifies this`currentSize, buffer
      ensures Valid()
      ensures r.Ok? <==> |config| <= old(RemainingCapacity()) && old(currentSize) + |config| < TWO32
      ensures r.Ok? ==> Body() == old(Body()) + config && ConfigBytes() == Image(Body())
      ensures |config| > old(RemainingCapacity()) ==>
        r == Err(BufferTooSmall(Some(|config|))) && currentSize == old(currentSize) && buffer[..] == old(buffer[..])
      ensures |config| <= old(RemainingCapacity()) && old(currentSize) + |config| >= TWO32 ==>
        r == Err(Other) && Body() == old(Body()) + config
    {
      if RemainingCapacity() < |config| {
        return Err(BufferTooSmall(Some(|config|)));
      }
      var written := config + seq(RemainingCapacity() - |config|, i => 0);
      assert written[..|config|] == config;
      r := AddWith(written, Ok(|config|));
    }
  }

  /** Where the reader's part of the buffer overlaps the trailer, it has written the same bytes. */
  predicate Spares(trailer: seq<byte>, written: seq<byte>) {
    if |written| <= |trailer| then written <= trailer else trailer <= written
  }

  lemma Overlap(body: seq<byte>, trailer: seq<byte>, written: seq<byte>, after: seq<byte>)
    requires |after| == |body + trailer| && after[..|body|] == body
    requires forall i :: 0 <= i < |trailer| ==> after[|body| + i] == if i < |written| then written[i] else trailer[i]
    ensures after == body + trailer <==> Spares(trailer, written)
  {
    if after == body + trailer {
      assert forall i :: 0 <= i < |trailer| ==> after[|body| + i] == trailer[i];
    }
  }

  // ----- Runs of either writer, and of both -----------------------------------------------------

  /** The calls of libxbc one after the other; the caller adds what each returns to the size of the section. */
  method AppendEach(mem: array<byte>, start: nat, size0: nat, ps: seq<seq<byte>>) returns (size: nat, total: int)
    requires 12 <= start && start + size0 <= mem.Length
    requires AppendAll(mem[..start], mem[start..start + size0], ps).Some?
    requires var need := Reserved(mem[..start], mem[start..start + size0]) + |Concat(ps)|;
             start + need <= mem.Length && need < TWO32
    modifies mem
    ensures start + size <= mem.Length && mem[..start] == old(mem[..start])
    ensures Some(mem[start..start + size]) == AppendAll(old(mem[..start]), old(mem[start..start + size0]), ps)
    ensures (total - (size - size0)) % TWO32 == 0
    ensures old(Reserved(mem[..start], mem[start..start + size0])) + |Concat(ps)| < TWO32 / 2 ==> total == size - size0
  {
    hide *;
    ghost var pre, section := mem[..start], mem[start..start + size0];
    ghost var reserved := Reserved(pre, section);
    size, total := size0, 0;
    NoAppends(pre, section, ps[..0]);
    for i := 0 to |ps|
      invariant start + size <= mem.Length && mem[..start] == pre
      invariant AppendAll(pre, section, ps[..i]) == Some(mem[start..start + size])
      invariant Reserved(pre, mem[start..start + size]) <= reserved + |Concat(ps[..i])|
      invariant (total - (size - size0)) % TWO32 == 0
      invariant reserved + |Concat(ps)| < TWO32 / 2 ==> total == size - size0
    {
      ghost var now := mem[start..start + size];
      NextAppend(pre, section, ps, i, now);
      ReservedBounds(pre, now);
      ReservedBounds(pre, Append(pre, now, ps[i]));
      var newSize, applied := AppendOne(mem, start, size, ps[i]);
      Accounted(total - (size - size0), applied, newSize - size);
      size, total := newSize, total + applied;
    }
    assert ps[..|ps|] == ps;
  }

  /** One call, and the size that the section has then. */
  method AppendOne(mem: array<byte>, start: nat, size: nat, p: seq<byte>) returns (newSize: nat, applied: int)
    requires 12 <= start && start + size <= mem.Length
    requires p != [] && EndsInMagic(mem[..start] + mem[start..start + size]) ==> size >= TRAILER_SIZE
    requires start + Reserved(mem[..start], mem[start..start + size]) + |p| <= mem.Length
    requires Reserved(mem[..start], mem[start..start + size]) + |p| < TWO32
    modifies mem
    ensures var after := Append(old(mem[..start]), old(mem[start..start + size]), p);
      && start + newSize <= mem.Length && mem[..start] == old(mem[..start]) && mem[start..start + newSize] == after
      && (applied - (newSize - size)) % TWO32 == 0
      && (size < TWO32 / 2 && newSize < TWO32 / 2 ==> applied == newSize - size)
  {
    hide *;
    ghost var m, pre, now := mem[..], mem[..start], mem[start..start + size];
    ghost var next := Append(pre, now, p);
    assert |next| < TWO32 && size + |p| < TWO32 by {
      ReservedBounds(pre, now);
      AppendReserves(pre, now, p);
      ReservedBounds(pre, next);
    }
    applied := AddBootConfigParameters(Some(p), mem, start, size);
    SplicedReads(m, start, next);
    assert mem[..start] == mem[..][..start];
    assert mem[start..start + |next|] == mem[..][start..start + |next|];
    Returns(size, |next|);
    newSize := (size + applied) % TWO32;
  }

  lemma Accounted(error: int, applied: int, growth: int)
    requires error % TWO32 == 0 && (applied - growth) % TWO32 == 0
    ensures (error + applied - growth) % TWO32 == 0
  {
  }

  lemma NoAppends(pre: seq<byte>, section: seq<byte>, ps: seq<seq<byte>>)
    requires ps == []
    ensures AppendAll(pre, section, ps) == Some(section) && Concat(ps) == []
  {
  }

  lemma ReservedBounds(pre: seq<byte>, section: seq<byte>)
    ensures |section| <= Reserved(pre, section) <= |section| + TRAILER_SIZE
  {
    hide EndsInMagic;
  }

  /** The next append of a run can be made, and stays within what the run reserves. */
  lemma NextAppend(pre: seq<byte>, section: seq<byte>, ps: seq<seq<byte>>, i: nat, now: seq<byte>)
    requires i < |ps| && AppendAll(pre, section, ps).Some? && AppendAll(pre, section, ps[..i]) == Some(now)
    requires Reserved(pre, now) <= Reserved(pre, section) + |Concat(ps[..i])|
    ensures ps[i] != [] && EndsInMagic(pre + now) ==> |now| >= TRAILER_SIZE
    ensures AppendAll(pre, section, ps[..i + 1]) == Some(Append(pre, now, ps[i]))
    ensures Reserved(pre, Append(pre, now, ps[i])) <= Reserved(pre, section) + |Concat(ps[..i + 1])|
    ensures |Concat(ps[..i + 1])| == |Concat(ps[..i])| + |ps[i]| <= |Concat(ps)|
  {
    hide EndsInMagic, Append, AppendAll, Reserved, Concat;
    assert ps[..i + 1] == ps[..i] + [ps[i]];
    AppendAllPrefix(pre, section, ps, i + 1);
    AppendAllSnoc(pre, section, ps[..i], ps[i]);
    AppendReserves(pre, now, ps[i]);
    NextPart(ps, i);
  }

  /** What a call returns is the growth, in 32 bits. */
  lemma Returns(size: nat, next: nat)
    requires size < TWO32 && next < TWO32
    ensures var applied := Int32(next - size);
      && (size + applied) % TWO32 == next && (applied - (next - size)) % TWO32 == 0
      && (size < TWO32 / 2 && next < TWO32 / 2 ==> applied == next - size)
  {
  }

  lemma NextPart(ps: seq<seq<byte>>, i: nat)
    requires i < |ps|
    ensures Concat(ps[..i + 1]) == Concat(ps[..i]) + ps[i] && |Concat(ps[..i + 1])| <= |Concat(ps)|
  {
    assert ps[..i + 1] == ps[..i] + [ps[i]];
    ConcatSnoc(ps[..i], ps[i]);
    ConcatSplit(ps, i + 1);
  }

  lemma NoParts(ps: seq<seq<byte>>)
    requires ps == []
    ensures Concat(ps) == []
  {
  }

  /** The builder's calls one after the other, up to the first that fails. */
  method AddEach(b: BootConfigBuilder, ps: seq<seq<byte>>) returns (ok: bool)
    requires b.Valid() && b.currentSize < TWO32 && b.ConfigBytes() == Image(b.Body())
    modifies b`currentSize, b.buffer
    ensures b.Valid()
    ensures ok <==>
      var n := |old(b.Body())| + |Concat(ps)|; n + TRAILER_SIZE <= b.buffer.Length && n < TWO32
    ensures ok ==> b.Body() == old(b.Body()) + Concat(ps) && b.ConfigBytes() == Image(b.Body())
  {
    hide Image, Concat;
    ghost var body := b.Body();
    NoParts(ps[..0]);
    for i := 0 to |ps|
      invariant b.Valid() && b.ConfigBytes() == Image(b.Body())
      invariant b.Body() == body + Concat(ps[..i])
      invariant |body| + |Concat(ps[..i])| < TWO32
    {
      NextPart(ps, i);
      assert body + (Concat(ps[..i]) + ps[i]) == body + Concat(ps[..i]) + ps[i];
      var r := b.Add(ps[i]);
      if r.Err? {
        return false;
      }
    }
    assert ps[..|ps|] == ps;
    return true;
  }

  /**
   * Both writers, from the same body: the builder's section, which has a trailer, and for libxbc one with or without.
   * The two sections end up equal exactly when the text never ends in the magic and, if libxbc started without a
   * trailer, something was appended to a section that did not seem to have one.
   */
  method WriteBoth(mem: array<byte>, start: nat, size0: nat, b: BootConfigBuilder, ps: seq<seq<byte>>)
    returns (size: nat, total: int, ok: bool)
    requires b.Valid() && b.currentSize < TWO32 && b.ConfigBytes() == Image(b.Body()) && b.buffer != mem
    requires 12 <= start && start + size0 <= mem.Length
    requires mem[start..start + size0] == b.Body() || mem[start..start + size0] == b.ConfigBytes()
    requires AppendAll(mem[..start], mem[start..start + size0], ps).Some?
    requires var need := Reserved(mem[..start], mem[start..start + size0]) + |Concat(ps)|;
             start + need <= mem.Length && need < TWO32
    modifies mem, b`currentSize, b.buffer
    ensures b.Valid() && start + size <= mem.Length
    ensures ok <==>
      var n := |old(b.Body())| + |Concat(ps)|; n + TRAILER_SIZE <= b.buffer.Length && n < TWO32
    ensures ok ==>
      (mem[start..start + size] == b.ConfigBytes() <==>
       && NeverEnds(old(mem[..start]), old(b.Body()), ps)
       && (old(mem[start..start + size0] == b.ConfigBytes())
           || (Concat(ps) != [] && !EndsInMagic(old(mem[..start] + b.Body())))))
  {
    hide Image, EndsInMagic, Reserved, AppendAll, NeverEnds, Concat;
    ghost var pre, section, body := mem[..start], mem[start..start + size0], b.Body();
    WritersAgreeIff(pre, section, body, ps);
    size, total := AppendEach(mem, start, size0, ps);
    ghost var written := mem[start..start + size];
    ok := AddEach(b, ps);
    assert mem[start..start + size] == written;
  }

  /** A reader that fails after writing one byte of its own spoils the trailer of an empty config. */
  lemma ReaderSpoils()
    ensures !Spares(Trailer([]), [1])
  {
    assert Trailer([])[0] == ToLe(0, 4)[0] == 0;
  }
}
