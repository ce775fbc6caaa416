/**
 Two stacked allocators: one that aligns what the EFI pool hands out and notes the shift behind the payload,
 and `gbl_malloc`, which aligns again and notes size and shift before the payload.
 */
module Allocators {
  import opened ByteOrder
  import opened Words

  const POOL_ALIGNMENT := 8

  /** The largest size of an allocation in Rust. */
  const MAX_SIZE := 0x7FFF_FFFF_FFFF_FFFF

  predicate PowerOfTwo(n: nat) {
    n == 1 || (n > 0 && n % 2 == 0 && PowerOfTwo(n / 2))
  }

  /** A piece of memory in use: the pool block that holds it, and what was asked for. */
  datatype Grant =
    | Pooled(base: nat, size: nat, align: nat)
    | Wrapped(base: nat, size: nat, align: nat)
  {
    /** The size of the pool block. */
    function Total(): nat {
      if Wrapped? then size + align + 16
      else if align <= POOL_ALIGNMENT then size
      else size + align + 8
    }

    /** Where the payload can be: clear of the notes, which are kept in the block too. */
    predicate Fits(p: nat) {
      && align > 0 && p % align == 0
      && if Wrapped? then base + 16 <= p && p + size < base + Total()
         else if align <= POOL_ALIGNMENT then p == base
         else base < p && p + size + 8 <= base + Total()
    }

    /** The notes from which the block is found again. */
    predicate Noted(m: Memory, p: nat)
      requires Fits(p) && base + Total() <= |m|
    {
      if Wrapped? then Word(m, p - 16) == Total() && Word(m, p - 8) == p - base
      else align > POOL_ALIGNMENT ==> Word(m, p + size) == p - base
    }

    predicate Holds(m: Memory, p: nat) {
      Fits(p) && base + Total() <= |m| && Noted(m, p)
    }
  }

  lemma HoldsLocally(m: Memory, m': Memory, p: nat, g: Grant)
    requires g.Holds(m, p) && |m| == |m'| && m[g.base..g.base + g.Total()] == m'[g.base..g.base + g.Total()]
    ensures g.Holds(m', p)
  {
    var b, e := g.base, g.base + g.Total();
    SameWords(m, m', b, e);
  }

  lemma SameWords(m: Memory, m': Memory, b: nat, e: nat)
    requires b <= e <= |m| == |m'| && m[b..e] == m'[b..e]
    ensures forall a :: b <= a && a + 8 <= e ==> Word(m, a) == Word(m', a)
  {
    forall a | b <= a && a + 8 <= e ensures Word(m, a) == Word(m', a) {
      SameWithin(m, m', b, e, a, a + 8);
    }
  }

  lemma SameWithin(m: Memory, m': Memory, b: nat, e: nat, a: nat, z: nat)
    requires b <= a <= z <= e <= |m| == |m'| && m[b..e] == m'[b..e]
    ensures m[a..z] == m'[a..z]
  {
    forall i | a <= i < z ensures m[i] == m'[i] {
      assert m[b..e][i - b] == m'[b..e][i - b];
    }
  }

  lemma HoldsAfterStore(m: Memory, p: nat, g: Grant, i: nat, v: byte)
    requires g.Holds(m, p) && i < g.size
    ensures g.Holds(m[p + i := v], p)
  {
    var m' := m[p + i := v];
    if g.Wrapped? {
      assert m'[p - 16..p - 8] == m[p - 16..p - 8] && m'[p - 8..p] == m[p - 8..p];
    } else if g.align > POOL_ALIGNMENT {
      assert m'[p + g.size..p + g.size + 8] == m[p + g.size..p + g.size + 8];
    }
  }

  lemma HoldsApart(m: Memory, x: nat, v: byte, q: nat, g: Grant)
    requires g.Holds(m, q) && x < |m| && (x < g.base || g.base + g.Total() <= x)
    ensures g.Holds(m[x := v], q)
  {
    hide Grant.Noted, Grant.Total;
    var b, e := g.base, g.base + g.Total();
    assert m[x := v][b..e] == m[b..e];
    HoldsLocally(m, m[x := v], q, g);
  }

  lemma PayloadInside(m: Memory, p: nat, g: Grant)
    requires g.Holds(m, p)
    ensures p + g.size <= |m|
  {
  }

  // ----- The state of the pool -----------------------------------------------------------------

  /** Blocks are aligned, in memory, and apart from each other. */
  predicate Pool(n: nat, blocks: map<nat, nat>) {
    && n <= WORD
    && (forall b :: b in blocks ==> 0 < b < WORD && b % POOL_ALIGNMENT == 0 && b + blocks[b] <= n)
    && (forall a, b :: a in blocks && b in blocks && a < b ==> a + blocks[a] <= b)
  }

  /** Every payload in use is held by a block of its own. */
  ghost predicate Granted(m: Memory, blocks: map<nat, nat>, live: map<nat, Grant>) {
    && (forall p :: p in live ==>
          live[p].base in blocks && blocks[live[p].base] == live[p].Total() && live[p].Holds(m, p))
    && (forall p, q :: p in live && q in live && p != q ==> live[p].base != live[q].base)
  }

  /** No payload overlaps the block of another, notes included. */
  lemma PayloadsDisjoint(m: Memory, blocks: map<nat, nat>, live: map<nat, Grant>, p: nat, q: nat)
    requires Pool(|m|, blocks) && Granted(m, blocks, live) && p in live && q in live && p != q
    ensures p + live[p].size <= live[q].base || live[q].base + live[q].Total() <= p
  {
  }

  lemma GrantedElsewhere(m: Memory, m': Memory, blocks: map<nat, nat>, live: map<nat, Grant>, b: nat)
    requires Pool(|m|, blocks) && Granted(m, blocks, live) && |m'| == |m| && b in blocks
    requires m'[..b] == m[..b] && m'[b + blocks[b]..] == m[b + blocks[b]..]
    requires forall p :: p in live ==> live[p].base != b
    ensures Granted(m', blocks, live)
  {
    hide Grant.Holds, Grant.Total;
    var c := b + blocks[b];
    assert m[0..b] == m'[0..b];
    assert m[c..|m|] == m'[c..|m|];
    forall p | p in live ensures live[p].Holds(m', p) {
      var g := live[p];
      if g.base < b {
        SameWithin(m, m', 0, b, g.base, g.base + g.Total());
      } else {
        SameWithin(m, m', c, |m|, g.base, g.base + g.Total());
      }
      HoldsLocally(m, m', p, g);
    }
  }

  /** A new block for a new payload. */
  lemma GrantedMore(m: Memory, blocks: map<nat, nat>, live: map<nat, Grant>, p: nat, g: Grant)
    requires Pool(|m|, blocks) && Granted(m, blocks, live)
    requires g.base in blocks && blocks[g.base] == g.Total() && g.Holds(m, p)
    requires forall q :: q in live ==> live[q].base != g.base
    ensures p !in live && Granted(m, blocks, live[p := g])
  {
    hide Grant.Noted;
  }

  lemma Ungranted(m: Memory, blocks: map<nat, nat>, live: map<nat, Grant>, b: nat)
    requires Granted(m, blocks, live) && b !in blocks
    ensures forall q :: q in live ==> live[q].base != b
  {
  }

  lemma BlockFits(n: nat, blocks: map<nat, nat>, b: nat)
    requires Pool(n, blocks) && b in blocks
    ensures 0 < b < WORD && b + blocks[b] <= n <= WORD && b % POOL_ALIGNMENT == 0
  {
  }

  /** What is freed: the grants of other blocks remain. */
  ghost function Without(live: map<nat, Grant>, start: nat): map<nat, Grant> {
    map p | p in live && live[p].base != start :: live[p]
  }

  lemma SmallPowers(n: nat)
    requires PowerOfTwo(n) && n <= 8
    ensures n == 1 || n == 2 || n == 4 || n == 8
  {
    assert PowerOfTwo(n) <==> n == 1 || (n > 0 && n % 2 == 0 && PowerOfTwo(n / 2));
    assert PowerOfTwo(n / 2) <==> n / 2 == 1 || (n / 2 > 0 && n / 2 % 2 == 0 && PowerOfTwo(n / 2 / 2));
  }

  lemma PoolAligned(p: nat, align: nat)
    requires PowerOfTwo(align) && align <= POOL_ALIGNMENT && p % POOL_ALIGNMENT == 0
    ensures p % align == 0
  {
    SmallPowers(align);
    EighthsAligned(p);
  }

  lemma EighthsAligned(p: nat)
    requires p % 8 == 0
    ensures p % 4 == 0 && p % 2 == 0
  {
    var k := p / 8;
    MultipleOf(4, 2 * k);
    MultipleOf(2, 4 * k);
  }

  /** What lies after `p` by the distance to a multiple. */
  lemma ShiftAligns(p: nat, align: nat)
    requires align > 0
    ensures 0 < align - p % align <= align && (p + (align - p % align)) % align == 0
  {
    var k := p / align;
    assert p + (align - p % align) == align * (k + 1);
    MultipleOf(align, k + 1);
  }

  lemma MultipleOf(align: nat, k: nat)
    requires align > 0
    ensures (align * k) % align == 0
  {
    var q, r := align * k / align, (align * k) % align;
    assert align * k == align * q + r;
    assert align * (k - q) == r && align * (q - k) == -r;
    if q < k {
      AtLeast(align, k - q);
    } else if k < q {
      AtLeast(align, q - k);
    }
  }

  lemma AtLeast(align: nat, k: nat)
    requires k > 0
    ensures align * k >= align
  {
  }

  function RoundUp(a: nat, align: nat): (r: nat)
    requires align > 0
    ensures a <= r < a + align && r % align == 0
  {
    var x := a + align - 1;
    var k := x / align;
    assert x - x % align == align * k;
    MultipleOf(align, k);
    x - x % align
  }

  class Heap {
    var mem: Memory
    var blocks: map<nat, nat>
    ghost var live: map<nat, Grant>
    /** How often the firmware had no memory to give. */
    ghost var refusals: nat

    ghost predicate Valid()
      reads this
    {
      Pool(|mem|, blocks) && Granted(mem, blocks, live)
    }

    constructor (mem: Memory)
      requires |mem| <= WORD
      ensures Valid() && this.mem == mem && blocks == map[] && live == map[] && refusals == 0
    {
      this.mem := mem;
      refusals := 0;
      blocks := map[];
      live := map[];
    }

    /** The firmware finds a place for a block, or none. */
    method AllocatePool(size: nat) returns (ptr: nat)
      requires Valid()
      modifies this`blocks, this`refusals
      ensures Valid() && refusals == old(refusals) + if ptr == 0 then 1 else 0
      ensures ptr == 0 ==> blocks == old(blocks)
      ensures ptr != 0 ==> ptr !in old(blocks) && blocks == old(blocks)[ptr := size]
    {
      ptr :| ptr == 0 || (ptr !in blocks && Pool(|mem|, blocks[ptr := size]));
      if ptr != 0 {
        blocks := blocks[ptr := size];
      } else {
        refusals := refusals + 1;
      }
    }

    /** The firmware takes back a block; an address that is not one is refused, which goes unnoticed. */
    method FreePool(ptr: nat)
      requires Valid()
      modifies this`blocks, this`live
      ensures Valid() && blocks == old(blocks) - {ptr} && live == Without(old(live), ptr)
    {
      blocks := blocks - {ptr};
      live := Without(live, ptr);
    }

    /** Writes a word into a block that holds no payload. */
    method Note(a: nat, v: nat, ghost b: nat)
      requires Valid() && v < WORD && b in blocks && b <= a && a + 8 <= b + blocks[b]
      requires forall p :: p in live ==> live[p].base != b
      modifies this`mem
      ensures Valid() && mem == Put(old(mem), a, v) && Word(mem, a) == v
      ensures mem[..b] == old(mem)[..b] && mem[b + blocks[b]..] == old(mem)[b + blocks[b]..]
    {
      hide Grant.Holds, Grant.Total;
      ghost var m, e := mem, b + blocks[b];
      WordOfPut(m, a, v);
      PutElsewhere(m, a, v, 0, b);
      PutElsewhere(m, a, v, e, |m| - e);
      assert m[e..|m|] == m[e..] && m[0..b] == m[..b];
      GrantedElsewhere(m, Put(m, a, v), blocks, live, b);
      mem := Put(mem, a, v);
    }

    /** Memory that the pool aligns already. */
    method AllocPlain(size: nat, align: nat) returns (ptr: nat)
      requires Valid() && PowerOfTwo(align) && align <= POOL_ALIGNMENT
      modifies this`blocks, this`live, this`refusals
      ensures Valid() && (ptr == 0 ==> refusals > old(refusals))
      ensures ptr == 0 ==> blocks == old(blocks) && live == old(live)
      ensures ptr != 0 ==> NewGrant(old(mem), old(blocks), old(live), ptr, Pooled(ptr, size, align))
    {
      ptr := AllocatePool(size);
      if ptr != 0 {
        assert ptr in blocks;
        PoolAligned(ptr, align);
        ghost var g := Pooled(ptr, size, align);
        GrantedMore(mem, blocks, live, ptr, g);
        live := live[ptr := g];
      }
    }

    /** Memory for a layout: aligned, in a block of its own, from which it can be found again. */
    method Alloc(size: nat, align: nat) returns (ptr: nat, ghost base: nat)
      requires Valid() && PowerOfTwo(align)
      modifies this
      ensures Valid()
      ensures ptr == 0 ==> blocks == old(blocks) && live == old(live) && mem == old(mem)
      ensures ptr != 0 ==> NewGrant(old(mem), old(blocks), old(live), ptr, Pooled(base, size, align))
      ensures align <= POOL_ALIGNMENT ==> ptr == base
      ensures ptr == 0 ==> refusals > old(refusals) || size + align + 8 >= WORD
    {
      if align <= POOL_ALIGNMENT {
        ptr := AllocPlain(size, align);
        return ptr, ptr;
      }
      ptr, base := AllocShifted(size, align);
    }

    /** Memory in a larger block, shifted to where it is aligned, and the shift noted behind it. */
    method AllocShifted(size: nat, align: nat) returns (ptr: nat, ghost base: nat)
      requires Valid() && align > POOL_ALIGNMENT
      modifies this
      ensures Valid()
      ensures ptr == 0 ==> blocks == old(blocks) && live == old(live) && mem == old(mem)
      ensures ptr == 0 ==> refusals > old(refusals) || size + align + 8 >= WORD
      ensures ptr != 0 ==> NewGrant(old(mem), old(blocks), old(live), ptr, Pooled(base, size, align))
    {
      hide Pool, Granted, Put, Word;
      if size + align + 8 >= WORD {
        return 0, 0;
      }
      var start := AllocatePool(size + align + 8);
      if start == 0 {
        return 0, 0;
      }
      Ungranted(mem, old(blocks), live, start);
      BlockFits(|mem|, blocks, start);
      var offset := align - start % align;
      ShiftAligns(start, align);
      Note(start + offset + size, offset, start);
      ghost var g := Pooled(start, size, align);
      GrantedMore(mem, blocks, live, start + offset, g);
      live := live[start + offset := g];
      return start + offset, start;
    }

    /** Gives a block back: the one at the address, or the one that the note behind the payload leads to. */
    method Dealloc(ptr: nat, size: nat, align: nat)
      requires Valid() && ptr < WORD && (align > POOL_ALIGNMENT ==> ptr + size + 8 <= |mem|)
      modifies this`blocks, this`live
      ensures Valid()
      ensures blocks == old(blocks) - {Start(mem, ptr, size, align)}
      ensures live == Without(old(live), Start(mem, ptr, size, align))
    {
      hide Pool, Granted, Word;
      if align <= POOL_ALIGNMENT {
        FreePool(ptr);
        return;
      }
      var offset := Word(mem, ptr + size);
      FreePool((ptr - offset) % WORD);
    }

    /**
     * Memory for C: aligned, in a block of its own, behind a note of the block's size and of the shift. A call
     * that fails takes nothing from the pool, except that alignment 0, and a sum that overflows for an empty request
     * at the very end of memory, are found out too late.
     */
    method GblMalloc(request: nat, alignment: nat) returns (p: nat, ghost base: nat)
      requires Valid()
      modifies this
      ensures Valid()
      ensures p == 0 ==> live == old(live) && mem == old(mem)
      ensures p == 0 && blocks == old(blocks) ==> refusals > old(refusals) || request + alignment + 16 > MAX_SIZE
      ensures p == 0 && blocks != old(blocks) ==>
        && (alignment == 0 || (request == 0 && base + alignment + 16 == WORD))
        && base !in old(blocks) && blocks == old(blocks)[base := request + alignment + 16]
      ensures p != 0 ==> alignment > 0
      ensures p != 0 ==> NewGrant(old(mem), old(blocks), old(live), p, Wrapped(base, request, alignment))
    {
      hide Pool, Granted, Put, Word;
      var size := request + alignment + 16;
      if size >= WORD || size > MAX_SIZE {
        return 0, 0;
      }
      var ptr := AllocPlain(size, 1);
      if ptr == 0 {
        return 0, 0;
      }
      Ungranted(old(mem), old(blocks), old(live), ptr);
      GrantedLess(mem, blocks, live, ptr);
      live := live - {ptr};
      assert live == old(live);
      BlockFits(|mem|, blocks, ptr);
      if alignment == 0 || ptr + 16 + alignment >= WORD {
        return 0, ptr;
      }
      p := RoundUp(ptr + 16, alignment);
      NotePrefix(p, size, ptr);
      ghost var g := Wrapped(ptr, request, alignment);
      GrantedMore(mem, blocks, live, p, g);
      live := live[p := g];
      base := ptr;
    }

    /** Notes the size of the block and the shift before the payload. */
    method NotePrefix(p: nat, size: nat, base: nat)
      requires Valid() && base in blocks && size < WORD && base + 16 <= p <= base + blocks[base]
      requires forall q :: q in live ==> live[q].base != base
      modifies this`mem
      ensures Valid() && |mem| == |old(mem)| && p <= |mem|
      ensures Word(mem, p - 16) == size && Word(mem, p - 8) == p - base
      ensures base + blocks[base] <= |mem|
      ensures mem[..base] == old(mem)[..base] && mem[base + blocks[base]..] == old(mem)[base + blocks[base]..]
    {
      hide Pool, Granted, Put;
      BlockFits(|mem|, blocks, base);
      Note(p - 16, size, base);
      ghost var m := mem;
      Note(p - 8, p - base, base);
      PutElsewhere(m, p - 8, p - base, p - 16, 8);
    }

    /** Takes back what `GblMalloc` gave; null is ignored. */
    method GblFree(p: nat, alignment: nat)
      requires Valid() && PowerOfTwo(alignment)
      requires p != 0 ==>
        && p in live && live[p].Wrapped? && live[p].align == alignment
        && live[p].Total() + alignment <= MAX_SIZE + 1
        && (alignment > POOL_ALIGNMENT ==> live[p].base + live[p].Total() + 8 <= |mem|)
      modifies this`blocks, this`live
      ensures Valid()
      ensures p == 0 ==> blocks == old(blocks) && live == old(live)
      ensures p != 0 ==>
        var g := old(live)[p];
        var start := Start(mem, g.base, g.Total(), alignment);
        && blocks == old(blocks) - {start} && live == Without(old(live), start)
        && (start == g.base <==> alignment <= POOL_ALIGNMENT || Word(mem, g.base + g.Total()) == 0)
        && (start == g.base ==> live == old(live) - {p})
    {
      hide Pool, Granted, Word;
      if p == 0 {
        return;
      }
      ghost var g := live[p];
      ReadBack(mem, blocks, live, p);
      Alone(mem, blocks, live, p);
      var offset := Word(mem, p - 8);
      var size := Word(mem, p - 16);
      Dealloc(p - offset, size, alignment);
      if alignment > POOL_ALIGNMENT {
        StartIff(mem, g.base, g.Total());
      }
    }

    /** Takes back what `Alloc` gave. */
    method GiveBack(ptr: nat, size: nat, align: nat)
      requires Valid() && ptr in live && live[ptr].Pooled? && live[ptr].size == size && live[ptr].align == align
      modifies this`blocks, this`live
      ensures Valid() && blocks == old(blocks) - {old(live)[ptr].base} && live == old(live) - {ptr}
    {
      hide Pool, Granted, Word, Without;
      FoundAgain(mem, blocks, live, ptr);
      Dealloc(ptr, size, align);
    }

    /** Stores a byte of a payload. */
    method Store(ghost p: nat, a: nat, v: byte)
      requires Valid() && p in live && p <= a < p + live[p].size
      modifies this`mem
      ensures Valid() && mem == old(mem)[a := v]
    {
      hide Pool, Granted;
      StoreKeeps(mem, blocks, live, p, a - p, v);
      mem := mem[a := v];
    }

    /** One block and one payload more; memory outside the block is as it was. */
    ghost predicate NewGrant(m: Memory, was: map<nat, nat>, lived: map<nat, Grant>, p: nat, g: Grant)
      reads this
    {
      && g.base !in was && blocks == was[g.base := g.Total()]
      && p !in lived && live == lived[p := g]
      && g.base + g.Total() <= |mem| == |m|
      && mem[..g.base] == m[..g.base] && mem[g.base + g.Total()..] == m[g.base + g.Total()..]
    }
  }

  /** The address that a deallocation gives back. */
  function Start(m: Memory, ptr: nat, size: nat, align: nat): nat
    requires align > POOL_ALIGNMENT ==> ptr + size + 8 <= |m|
  {
    if align <= POOL_ALIGNMENT then ptr else (ptr - Word(m, ptr + size)) % WORD
  }

  /** The note that is not there must read as zero. */
  lemma StartIff(m: Memory, base: nat, size: nat)
    requires base < WORD && base + size + 8 <= |m|
    ensures (base - Word(m, base + size)) % WORD == base <==> Word(m, base + size) == 0
  {
    WordIsSmall(m, base + size);
  }

  /** Sixteen bytes at alignment 16 from a block at 64: with 8 stored behind the block, 56 is given back. */
  lemma WrongStart(m: Memory)
    requires 120 <= |m| && Word(m, 112) == 8
    ensures Wrapped(64, 16, 16).Fits(80) && Start(m, 64, Wrapped(64, 16, 16).Total(), 16) == 56
  {
  }

  /** What the notes of a payload for C say. */
  lemma ReadBack(m: Memory, blocks: map<nat, nat>, live: map<nat, Grant>, p: nat)
    requires Pool(|m|, blocks) && Granted(m, blocks, live) && p in live && live[p].Wrapped?
    ensures live[p].base + 16 <= p <= |m| <= WORD && live[p].base < WORD
    ensures Word(m, p - 16) == live[p].Total() && Word(m, p - 8) == p - live[p].base
  {
    hide Word;
  }

  /** From a payload of the pool its block is found again, and no other is given back. */
  lemma FoundAgain(m: Memory, blocks: map<nat, nat>, live: map<nat, Grant>, p: nat)
    requires Pool(|m|, blocks) && Granted(m, blocks, live) && p in live && live[p].Pooled?
    ensures var g := live[p];
      && p < WORD && (g.align > POOL_ALIGNMENT ==> p + g.size + 8 <= |m|)
      && Start(m, p, g.size, g.align) == g.base
      && Without(live, g.base) == live - {p}
  {
    hide *;
    GrantHolds(m, blocks, live, p);
    BlockFits(|m|, blocks, live[p].base);
    StartIs(m, p, live[p]);
    Alone(m, blocks, live, p);
  }

  lemma GrantHolds(m: Memory, blocks: map<nat, nat>, live: map<nat, Grant>, p: nat)
    requires Granted(m, blocks, live) && p in live
    ensures live[p].base in blocks && blocks[live[p].base] == live[p].Total() && live[p].Holds(m, p)
  {
    hide Grant.Holds, Grant.Total;
  }

  lemma StartIs(m: Memory, p: nat, g: Grant)
    requires g.Holds(m, p) && g.Pooled? && |m| <= WORD && g.base < WORD
    ensures p < WORD && (g.align > POOL_ALIGNMENT ==> p + g.size + 8 <= |m|)
    ensures Start(m, p, g.size, g.align) == g.base
  {
    hide Word;
  }

  lemma Alone(m: Memory, blocks: map<nat, nat>, live: map<nat, Grant>, p: nat)
    requires Granted(m, blocks, live) && p in live
    ensures Without(live, live[p].base) == live - {p}
  {
    hide Grant.Holds, Grant.Total;
  }

  lemma GrantedLess(m: Memory, blocks: map<nat, nat>, live: map<nat, Grant>, p: nat)
    requires Granted(m, blocks, live)
    ensures Granted(m, blocks, live - {p})
  {
  }

  lemma StoreKeeps(m: Memory, blocks: map<nat, nat>, live: map<nat, Grant>, p: nat, i: nat, v: byte)
    requires Pool(|m|, blocks) && Granted(m, blocks, live) && p in live && i < live[p].size
    ensures p + i < |m| && Granted(m[p + i := v], blocks, live)
  {
    hide Grant.Holds, Grant.Total;
    PayloadInside(m, p, live[p]);
    HoldsAfterStore(m, p, live[p], i, v);
    var m' := m[p + i := v];
    forall q | q in live ensures live[q].Holds(m', q) {
      if q != p {
        PayloadsDisjoint(m, blocks, live, p, q);
        HoldsApart(m, p + i, v, q, live[q]);
      }
    }
  }
}
