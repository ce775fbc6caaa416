/**
 Dynamic relocation of a position-independent ELF image (chapters 4 and 5 of the System V gABI).

 The image is the memory from the load address `base` on, so that the offsets in its tables are
 indices into it.  Words are 64 bits, least significant byte first.
 */
module Relocation {
  import opened Basics
  import opened ByteOrder
  import opened Words

  const R_RELATIVE := 3

  // ----- Relocation tables -------------------------------------------------------------------

  /** RELA entries carry their addend; REL entries find it at the place they relocate. */
  datatype Kind = Rela | Rel {
    function Size(): nat { if Rela? then 24 else 16 }
  }

  datatype Entry = Entry(offset: nat, info: nat, addend: nat) {
    function Type(): nat { info % 0x1_0000_0000 }
  }

  function EntryAt(m: Memory, kind: Kind, a: nat): Entry
    requires a + kind.Size() <= |m|
  {
    Entry(Word(m, a), Word(m, a + 8), if kind.Rela? then Word(m, a + 16) else 0)
  }

  /** How many entries a table of `size` bytes has. */
  function Count(kind: Kind, size: nat): nat {
    if kind.Rela? then size / 24 else size / 16
  }

  /** Where entry `i` of a table at `a` begins. */
  function At(kind: Kind, a: nat, i: nat): nat {
    if kind.Rela? then a + 24 * i else a + 16 * i
  }

  function Table(m: Memory, kind: Kind, a: nat, n: nat): (es: seq<Entry>)
    requires At(kind, a, n) <= |m|
    ensures |es| == n
  {
    if n == 0 then [] else Table(m, kind, a, n - 1) + [EntryAt(m, kind, At(kind, a, n - 1))]
  }

  predicate InBounds(es: seq<Entry>, size: nat) {
    forall i :: 0 <= i < |es| ==> es[i].offset + 8 <= size
  }

  predicate Relative(es: seq<Entry>) {
    forall i :: 0 <= i < |es| ==> es[i].Type() == R_RELATIVE
  }

  function Addend(m: Memory, kind: Kind, e: Entry): nat
    requires e.offset + 8 <= |m|
  {
    if kind.Rela? then e.addend else Word(m, e.offset)
  }

  /** The entries applied in order, up to the first of an unknown type. */
  function FixUp(m: Memory, kind: Kind, base: nat, es: seq<Entry>): (r: (bool, Memory))
    requires InBounds(es, |m|)
    ensures |r.1| == |m|
    decreases |es|
  {
    if es == [] then (true, m) else FixOne(FixUp(m, kind, base, es[..|es| - 1]), kind, base, es[|es| - 1])
  }

  function FixOne(s: (bool, Memory), kind: Kind, base: nat, e: Entry): (r: (bool, Memory))
    requires e.offset + 8 <= |s.1|
    ensures |r.1| == |s.1|
  {
    if !s.0 || e.Type() != R_RELATIVE then (false, s.1)
    else (true, Put(s.1, e.offset, (base + Addend(s.1, kind, e)) % WORD))
  }

  // ----- What relocation does ----------------------------------------------------------------

  predicate Disjoint(es: seq<Entry>) {
    forall i, j :: 0 <= i < j < |es| ==> es[i].offset + 8 <= es[j].offset || es[j].offset + 8 <= es[i].offset
  }

  predicate Targeted(es: seq<Entry>, x: nat) {
    exists i :: 0 <= i < |es| && es[i].offset <= x < es[i].offset + 8
  }

  /** `m'` is `m` with each target moved up by the load address, and nothing else touched. */
  ghost predicate Relocated(m: Memory, m': Memory, kind: Kind, base: nat, es: seq<Entry>)
    requires InBounds(es, |m|)
  {
    && |m'| == |m|
    && (forall i :: 0 <= i < |es| ==> Word(m', es[i].offset) == (base + Addend(m, kind, es[i])) % WORD)
    && (forall x :: 0 <= x < |m| && !Targeted(es, x) ==> m'[x] == m[x])
  }

  lemma {:induction false} AcceptsIff(m: Memory, kind: Kind, base: nat, es: seq<Entry>)
    requires InBounds(es, |m|)
    ensures FixUp(m, kind, base, es).0 <==> Relative(es)
    decreases |es|
  {
    if es != [] {
      AcceptsIff(m, kind, base, es[..|es| - 1]);
      assert es == es[..|es| - 1] + [es[|es| - 1]];
    }
  }

  predicate Apart(es: seq<Entry>, a: nat) {
    forall i :: 0 <= i < |es| ==> es[i].offset + 8 <= a || a + 8 <= es[i].offset
  }

  lemma SplitLast(es: seq<Entry>, size: nat)
    requires es != [] && InBounds(es, size) && Disjoint(es)
    ensures var init, e := es[..|es| - 1], es[|es| - 1];
            InBounds(init, size) && Disjoint(init) && Apart(init, e.offset) && e.offset + 8 <= size
    ensures Relative(es) ==> Relative(es[..|es| - 1])
  {
  }

  lemma TargetedLast(es: seq<Entry>, x: nat)
    requires es != []
    ensures var e := es[|es| - 1];
            Targeted(es, x) <==> Targeted(es[..|es| - 1], x) || e.offset <= x < e.offset + 8
  {
    assert es == es[..|es| - 1] + [es[|es| - 1]];
  }

  /** A place apart from all targets keeps its word. */
  lemma UntouchedWord(m: Memory, m': Memory, kind: Kind, base: nat, es: seq<Entry>, a: nat)
    requires InBounds(es, |m|) && Relocated(m, m', kind, base, es) && a + 8 <= |m| && Apart(es, a)
    ensures Word(m', a) == Word(m, a)
  {
    forall x | a <= x < a + 8 ensures !Targeted(es, x) {
    }
    assert m'[a..a + 8] == m[a..a + 8];
  }

  /** `m2` is `m1` with the word `v` at `a`. */
  ghost predicate Updated(m1: Memory, m2: Memory, a: nat, v: nat) {
    && a + 8 <= |m1| == |m2|
    && Word(m2, a) == v
    && (forall x :: 0 <= x < |m1| && !(a <= x < a + 8) ==> m2[x] == m1[x])
  }

  lemma PutUpdates(m: Memory, a: nat, v: nat)
    requires a + 8 <= |m| && v < WORD
    ensures Updated(m, Put(m, a, v), a, v)
  {
    WordOfPut(m, a, v);
  }

  lemma WordsKept(m1: Memory, m2: Memory, a: nat, v: nat, b: nat)
    requires Updated(m1, m2, a, v) && b + 8 <= |m1| && (b + 8 <= a || a + 8 <= b)
    ensures Word(m2, b) == Word(m1, b)
  {
    assert m2[b..b + 8] == m1[b..b + 8];
  }

  lemma RelocateOne(m: Memory, m1: Memory, m2: Memory, kind: Kind, base: nat, es: seq<Entry>)
    requires es != [] && InBounds(es, |m|) && Disjoint(es) && InBounds(es[..|es| - 1], |m|)
    requires Relocated(m, m1, kind, base, es[..|es| - 1])
    requires var e := es[|es| - 1]; Updated(m1, m2, e.offset, (base + Addend(m1, kind, e)) % WORD)
    ensures Relocated(m, m2, kind, base, es)
  {
    hide Word, Disjoint;
    var init, e := es[..|es| - 1], es[|es| - 1];
    SplitLast(es, |m|);
    UntouchedWord(m, m1, kind, base, init, e.offset);
    forall i | 0 <= i < |es| ensures Word(m2, es[i].offset) == (base + Addend(m, kind, es[i])) % WORD {
      if i < |init| {
        assert init[i] == es[i];
        WordsKept(m1, m2, e.offset, (base + Addend(m1, kind, e)) % WORD, es[i].offset);
      }
    }
    forall x | 0 <= x < |m| && !Targeted(es, x) ensures m2[x] == m[x] {
      TargetedLast(es, x);
    }
  }

  lemma FixOneUpdates(s: (bool, Memory), kind: Kind, base: nat, e: Entry)
    requires e.offset + 8 <= |s.1| && s.0 && e.Type() == R_RELATIVE
    ensures FixOne(s, kind, base, e).0
    ensures Updated(s.1, FixOne(s, kind, base, e).1, e.offset, (base + Addend(s.1, kind, e)) % WORD)
  {
    PutUpdates(s.1, e.offset, (base + Addend(s.1, kind, e)) % WORD);
  }

  /** With targets that do not overlap, every word is moved exactly once. */
  lemma {:induction false} FixUpRelocates(m: Memory, kind: Kind, base: nat, es: seq<Entry>)
    requires InBounds(es, |m|) && Disjoint(es) && Relative(es)
    ensures FixUp(m, kind, base, es).0
    ensures Relocated(m, FixUp(m, kind, base, es).1, kind, base, es)
    decreases |es|
  {
    hide FixOne, Updated, Word, Disjoint;
    if es != [] {
      var init := es[..|es| - 1];
      SplitLast(es, |m|);
      FixUpRelocates(m, kind, base, init);
      FixOneUpdates(FixUp(m, kind, base, init), kind, base, es[|es| - 1]);
      RelocateOne(m, FixUp(m, kind, base, init).1, FixUp(m, kind, base, es).1, kind, base, es);
    }
  }

  /** The description pins the result down: two images that meet it are equal. */
  lemma RelocatedUnique(m: Memory, p: Memory, q: Memory, kind: Kind, base: nat, es: seq<Entry>)
    requires InBounds(es, |m|) && Relocated(m, p, kind, base, es) && Relocated(m, q, kind, base, es)
    ensures p == q
  {
    hide Word;
    forall x | 0 <= x < |m| ensures p[x] == q[x] {
      if Targeted(es, x) {
        var i :| 0 <= i < |es| && es[i].offset <= x < es[i].offset + 8;
        var a := es[i].offset;
        SameWordSameBytes(p, q, a);
        assert p[a..a + 8][x - a] == p[x] && q[a..a + 8][x - a] == q[x];
      }
    }
  }

  ghost predicate SameEntries(es: seq<Entry>, es': seq<Entry>) {
    forall e :: e in es <==> e in es'
  }

  /** The order of the entries does not matter. */
  lemma OrderIrrelevant(m: Memory, kind: Kind, base: nat, es: seq<Entry>, es': seq<Entry>)
    requires InBounds(es, |m|) && Disjoint(es) && Relative(es)
    requires InBounds(es', |m|) && Disjoint(es') && Relative(es')
    requires SameEntries(es, es')
    ensures FixUp(m, kind, base, es) == FixUp(m, kind, base, es')
  {
    FixUpRelocates(m, kind, base, es);
    FixUpRelocates(m, kind, base, es');
    var q := FixUp(m, kind, base, es').1;
    SameTargets(m, q, kind, base, es, es');
    RelocatedUnique(m, FixUp(m, kind, base, es).1, q, kind, base, es);
  }

  lemma SameTargets(m: Memory, q: Memory, kind: Kind, base: nat, es: seq<Entry>, es': seq<Entry>)
    requires InBounds(es, |m|) && InBounds(es', |m|) && SameEntries(es, es')
    requires Relocated(m, q, kind, base, es')
    ensures Relocated(m, q, kind, base, es)
  {
    forall i | 0 <= i < |es| ensures Word(q, es[i].offset) == (base + Addend(m, kind, es[i])) % WORD {
      assert es[i] in es';
    }
    forall x | 0 <= x < |m| && !Targeted(es, x) ensures q[x] == m[x] {
      TargetedSame(es, es', x);
    }
  }

  lemma TargetedSame(es: seq<Entry>, es': seq<Entry>, x: nat)
    requires SameEntries(es, es')
    ensures Targeted(es', x) ==> Targeted(es, x)
  {
    if Targeted(es', x) {
      var i :| 0 <= i < |es'| && es'[i].offset <= x < es'[i].offset + 8;
      assert es'[i] in es;
    }
  }

  lemma RelaAgain(m: Memory, p: Memory, q: Memory, base: nat, es: seq<Entry>)
    requires InBounds(es, |m|) && Relocated(m, p, Rela, base, es) && Relocated(p, q, Rela, base, es)
    ensures q == p
  {
    RelocatedUnique(p, q, p, Rela, base, es);
  }

  /** RELA relocation can be repeated at will. */
  lemma RelaIdempotent(m: Memory, base: nat, es: seq<Entry>)
    requires InBounds(es, |m|) && Disjoint(es) && Relative(es)
    ensures var p := FixUp(m, Rela, base, es).1; FixUp(p, Rela, base, es).1 == p
  {
    FixUpRelocates(m, Rela, base, es);
    var p := FixUp(m, Rela, base, es).1;
    FixUpRelocates(p, Rela, base, es);
    RelaAgain(m, p, FixUp(p, Rela, base, es).1, base, es);
  }

  lemma AddChangesIff(w: nat, base: nat)
    requires w < WORD
    ensures (base + w) % WORD == w <==> base % WORD == 0
  {
    var q, r := base / WORD, base % WORD;
    assert (base + w) % WORD == (r + w) % WORD by {
      ModDrop(q, r + w);
      assert base + w == q * WORD + (r + w);
    }
  }

  lemma ModDrop(q: nat, r: nat)
    ensures (q * WORD + r) % WORD == r % WORD
  {
  }

  lemma RelAgainIff(m: Memory, p: Memory, q: Memory, base: nat, es: seq<Entry>)
    requires InBounds(es, |m|) && Relocated(m, p, Rel, base, es) && Relocated(p, q, Rel, base, es)
    ensures q == p <==> es == [] || base % WORD == 0
  {
    hide Word;
    forall i | 0 <= i < |es|
      ensures Word(p, es[i].offset) == (base + Word(p, es[i].offset)) % WORD <==> base % WORD == 0
    {
      WordIsSmall(p, es[i].offset);
      AddChangesIff(Word(p, es[i].offset), base);
    }
    if es == [] || base % WORD == 0 {
      RelocatedUnique(p, q, p, Rel, base, es);
    } else {
      assert Word(q, es[0].offset) == (base + Word(p, es[0].offset)) % WORD;
    }
  }

  /** REL relocation can not: a second pass moves everything again, unless there is nothing to move. */
  lemma RelIdempotentIff(m: Memory, base: nat, es: seq<Entry>)
    requires InBounds(es, |m|) && Disjoint(es) && Relative(es)
    ensures var p := FixUp(m, Rel, base, es).1;
            FixUp(p, Rel, base, es).1 == p <==> es == [] || base % WORD == 0
  {
    FixUpRelocates(m, Rel, base, es);
    var p := FixUp(m, Rel, base, es).1;
    FixUpRelocates(p, Rel, base, es);
    RelAgainIff(m, p, FixUp(p, Rel, base, es).1, base, es);
  }

  /** A word moved up by 4096 is moved up again. */
  lemma RelMovesAgain(m: Memory)
    requires |m| >= 8
    ensures var es := [Entry(0, R_RELATIVE, 0)];
            var p := FixUp(m, Rel, 4096, es).1;
            FixUp(p, Rel, 4096, es).1 != p
  {
    hide FixUp;
    RelIdempotentIff(m, 4096, [Entry(0, R_RELATIVE, 0)]);
  }

  /** Images of one program loaded at `b` and at `b'`. */
  ghost predicate DifferByBase(p: Memory, p': Memory, b: nat, b': nat, es: seq<Entry>)
    requires |p| == |p'| && InBounds(es, |p|)
  {
    && (forall i :: 0 <= i < |es| ==> (Word(p, es[i].offset) + b') % WORD == (Word(p', es[i].offset) + b) % WORD)
    && (forall x :: 0 <= x < |p| && !Targeted(es, x) ==> p[x] == p'[x])
  }

  lemma RelocatedDiffer(m: Memory, p: Memory, p': Memory, kind: Kind, b: nat, b': nat, es: seq<Entry>)
    requires InBounds(es, |m|) && Relocated(m, p, kind, b, es) && Relocated(m, p', kind, b', es)
    ensures DifferByBase(p, p', b, b', es)
  {
    forall i | 0 <= i < |es| ensures (Word(p, es[i].offset) + b') % WORD == (Word(p', es[i].offset) + b) % WORD {
      CrossSum(b, b', Addend(m, kind, es[i]));
    }
  }

  /** They differ by the difference of the addresses at each target, and nowhere else. */
  lemma BasesDiffer(m: Memory, kind: Kind, b: nat, b': nat, es: seq<Entry>)
    requires InBounds(es, |m|) && Disjoint(es) && Relative(es)
    ensures DifferByBase(FixUp(m, kind, b, es).1, FixUp(m, kind, b', es).1, b, b', es)
  {
    FixUpRelocates(m, kind, b, es);
    FixUpRelocates(m, kind, b', es);
    RelocatedDiffer(m, FixUp(m, kind, b, es).1, FixUp(m, kind, b', es).1, kind, b, b', es);
  }

  lemma CrossSum(b: nat, b': nat, a: nat)
    ensures ((b + a) % WORD + b') % WORD == ((b' + a) % WORD + b) % WORD
  {
    ModDrop((b + a) / WORD, (b + a) % WORD + b');
    ModDrop((b' + a) / WORD, (b' + a) % WORD + b);
    assert b + a + b' == (b + a) / WORD * WORD + ((b + a) % WORD + b');
    assert b' + a + b == (b' + a) / WORD * WORD + ((b' + a) % WORD + b);
  }

  // ----- The relocation code -----------------------------------------------------------------

  method GetWord(mem: array<byte>, a: nat) returns (v: nat)
    requires a + 8 <= mem.Length
    ensures v == Word(mem[..], a)
  {
    v := FromLe(mem[a..a + 8]);
    assert mem[..][a..a + 8] == mem[a..a + 8];
  }

  method PutWord(mem: array<byte>, a: nat, v: nat)
    requires a + 8 <= mem.Length
    modifies mem
    ensures mem[..] == Put(old(mem[..]), a, v)
  {
    hide ToLe, Spliced;
    var bytes := ToLe(v, 8);
    SplicedNone(mem[..], a, bytes[..0]);
    for i := 0 to 8
      invariant mem[..] == Spliced(old(mem[..]), a, bytes[..i])
    {
      SplicedNext(old(mem[..]), a, bytes, i);
      mem[a + i] := bytes[i];
    }
    assert bytes[..8] == bytes;
  }

  /** No target lies in `[a, b)`. */
  predicate Clear(es: seq<Entry>, a: nat, b: nat) {
    forall i :: 0 <= i < |es| ==> es[i].offset + 8 <= a || b <= es[i].offset
  }

  /** The table and all its targets are in the image, and no target is in the table. */
  predicate Ready(m: Memory, kind: Kind, a: nat, n: nat) {
    At(kind, a, n) <= |m| && InBounds(Table(m, kind, a, n), |m|) && Clear(Table(m, kind, a, n), a, At(kind, a, n))
  }

  lemma {:induction false} FixUpStops(m: Memory, kind: Kind, base: nat, es: seq<Entry>, i: nat)
    requires InBounds(es, |m|) && i < |es| && es[i].Type() != R_RELATIVE
    ensures FixUp(m, kind, base, es) == (false, FixUp(m, kind, base, es[..i]).1)
    decreases |es|
  {
    var init := es[..|es| - 1];
    if i < |init| {
      FixUpStops(m, kind, base, init, i);
      assert init[..i] == es[..i];
    }
  }

  lemma {:induction false} TableAt(m: Memory, kind: Kind, a: nat, n: nat, i: nat)
    requires At(kind, a, n) <= |m| && i < n
    ensures Table(m, kind, a, n)[i] == EntryAt(m, kind, At(kind, a, i))
  {
    if i < n - 1 {
      TableAt(m, kind, a, n - 1, i);
    }
  }

  lemma SameWord(m: Memory, m': Memory, a: nat, b: nat, x: nat)
    requires |m| == |m'| && a <= x && x + 8 <= b <= |m| && m[a..b] == m'[a..b]
    ensures Word(m, x) == Word(m', x)
  {
    forall y | x <= y < x + 8 ensures m[y] == m'[y] {
      assert m[a..b][y - a] == m'[a..b][y - a];
    }
    assert m[x..x + 8] == m'[x..x + 8];
  }

  /** While the table itself is untouched, its entries are what they were. */
  lemma SameTableSameEntry(m: Memory, m': Memory, kind: Kind, a: nat, n: nat, i: nat)
    requires |m| == |m'| && i < n && At(kind, a, n) <= |m|
    requires m[a..At(kind, a, n)] == m'[a..At(kind, a, n)]
    ensures EntryAt(m', kind, At(kind, a, i)) == Table(m, kind, a, n)[i]
  {
    hide Word, Table;
    TableAt(m, kind, a, n, i);
    var x := At(kind, a, i);
    SameWord(m, m', a, At(kind, a, n), x);
    SameWord(m, m', a, At(kind, a, n), x + 8);
    if kind.Rela? {
      SameWord(m, m', a, At(kind, a, n), x + 16);
    }
  }

  /** The body of the loop: the entry at `x`. */
  method FixUpEntry(mem: array<byte>, kind: Kind, base: nat, x: nat) returns (ok: bool)
    requires x + kind.Size() <= mem.Length && EntryAt(mem[..], kind, x).offset + 8 <= mem.Length
    modifies mem
    ensures (ok, mem[..]) == FixOne((true, old(mem[..])), kind, base, EntryAt(old(mem[..]), kind, x))
  {
    var offset := GetWord(mem, x);
    var info := GetWord(mem, x + 8);
    var addend;
    if kind.Rela? {
      addend := GetWord(mem, x + 16);
    } else {
      addend := GetWord(mem, offset);
    }
    if info % 0x1_0000_0000 != R_RELATIVE {
      return false;
    }
    PutWord(mem, offset, (base + addend) % WORD);
    return true;
  }

  lemma FixOneElsewhere(m: Memory, kind: Kind, base: nat, e: Entry, a: nat, b: nat)
    requires e.offset + 8 <= |m| && a <= b <= |m| && (e.offset + 8 <= a || b <= e.offset)
    ensures FixOne((true, m), kind, base, e).1[a..b] == m[a..b]
  {
    PutElsewhere(m, e.offset, (base + Addend(m, kind, e)) % WORD, a, b - a);
  }

  /** Applies the table at `a`, reading each entry from the memory that is being changed. */
  method FixUpRelxTable(mem: array<byte>, kind: Kind, base: nat, a: nat, size: nat) returns (ok: bool)
    requires Ready(mem[..], kind, a, Count(kind, size))
    modifies mem
    ensures (ok, mem[..]) == FixUp(old(mem[..]), kind, base, Table(old(mem[..]), kind, a, Count(kind, size)))
  {
    hide FixUp, Table, EntryAt, Put, Word, Addend;
    var n := Count(kind, size);
    ghost var m := mem[..];
    ghost var es := Table(m, kind, a, n);
    FixUpNone(m, kind, base);
    for i := 0 to n
      invariant FixUp(m, kind, base, es[..i]) == (true, mem[..])
      invariant mem[..][a..At(kind, a, n)] == m[a..At(kind, a, n)]
    {
      SameTableSameEntry(m, mem[..], kind, a, n, i);
      FixOneElsewhere(mem[..], kind, base, es[i], a, At(kind, a, n));
      FixUpPrefix(m, kind, base, es, i);
      ok := FixUpEntry(mem, kind, base, At(kind, a, i));
      if !ok {
        FixUpStops(m, kind, base, es, i);
        return false;
      }
    }
    assert es[..n] == es;
    return true;
  }

  lemma FixUpNone(m: Memory, kind: Kind, base: nat)
    ensures FixUp(m, kind, base, []) == (true, m)
  {
  }

  lemma FixUpPrefix(m: Memory, kind: Kind, base: nat, es: seq<Entry>, i: nat)
    requires InBounds(es, |m|) && i < |es|
    ensures FixUp(m, kind, base, es[..i + 1]) == FixOne(FixUp(m, kind, base, es[..i]), kind, base, es[i])
  {
    assert es[..i + 1][..i] == es[..i];
  }
}
