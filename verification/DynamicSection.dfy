/**
 The dynamic section of an ELF image, through which its relocation tables are found, and what both relocation passes
 together make of the image.
 */
module DynamicSection {
  import opened Basics
  import opened ByteOrder
  import opened Words
  import opened Relocation

  // ----- The dynamic section -----------------------------------------------------------------

  const DT_NULL := 0
  const DT_SYMTAB := 6
  const DT_RELA := 7
  const DT_RELASZ := 8
  const DT_REL := 17
  const DT_RELSZ := 18
  const DT_JMPREL := 23
  const DT_RELR := 36

  /** The places of the entries found so far, and the address of the symbol table (null for none). */
  datatype Info = Info(rel: Option<nat>, relSize: Option<nat>, rela: Option<nat>, relaSize: Option<nat>, symtab: nat)

  function Tag(m: Memory, dyn: nat, i: nat): nat
    requires dyn + 16 * i + 8 <= |m|
  {
    Word(m, dyn + 16 * i)
  }

  /** What the first `n` entries say; later ones override earlier ones, and some are not supported. */
  function Scan(m: Memory, base: nat, dyn: nat, n: nat): Option<Info>
    requires dyn + 16 * n <= |m|
  {
    if n == 0 then Some(Info(None, None, None, None, 0)) else
    var init := Scan(m, base, dyn, n - 1);
    if init.None? then None else ScanOne(m, base, init.value, dyn + 16 * (n - 1))
  }

  function ScanOne(m: Memory, base: nat, info: Info, x: nat): Option<Info>
    requires x + 16 <= |m|
  {
    var tag := Word(m, x);
    if tag == DT_RELR || tag == DT_JMPREL then None
    else if tag == DT_RELA then Some(info.(rela := Some(x)))
    else if tag == DT_RELASZ then Some(info.(relaSize := Some(x)))
    else if tag == DT_REL then Some(info.(rel := Some(x)))
    else if tag == DT_RELSZ then Some(info.(relSize := Some(x)))
    else if tag == DT_SYMTAB then Some(info.(symtab := (Word(m, x + 8) + base) % WORD))
    else Some(info)
  }

  /** `n` entries and then the one that ends the section. */
  predicate Section(m: Memory, dyn: nat, n: nat) {
    && dyn + 16 * n + 8 <= |m|
    && Tag(m, dyn, n) == DT_NULL
    && (forall i :: 0 <= i < n ==> Tag(m, dyn, i) != DT_NULL)
  }

  /** The last of the first `n` entries with the tag, if there is one. */
  ghost predicate IsLast(m: Memory, dyn: nat, n: nat, tag: nat, place: Option<nat>)
    requires dyn + 16 * n <= |m|
  {
    match place
    case None => forall i :: 0 <= i < n ==> Tag(m, dyn, i) != tag
    case Some(x) =>
      exists i :: 0 <= i < n && x == dyn + 16 * i && Tag(m, dyn, i) == tag && NoneAfter(m, dyn, n, tag, i)
  }

  ghost predicate NoneAfter(m: Memory, dyn: nat, n: nat, tag: nat, i: nat)
    requires dyn + 16 * n <= |m|
  {
    forall j :: i < j < n ==> Tag(m, dyn, j) != tag
  }

  ghost predicate Unsupported(m: Memory, dyn: nat, n: nat)
    requires dyn + 16 * n <= |m|
  {
    exists i :: 0 <= i < n && (Tag(m, dyn, i) == DT_RELR || Tag(m, dyn, i) == DT_JMPREL)
  }

  /** What the scan is to find: the last entry of each kind, and the symbol table that the last such entry gives. */
  ghost predicate Finds(m: Memory, base: nat, dyn: nat, n: nat, info: Info)
    requires dyn + 16 * n <= |m|
  {
    && IsLast(m, dyn, n, DT_REL, info.rel) && IsLast(m, dyn, n, DT_RELSZ, info.relSize)
    && IsLast(m, dyn, n, DT_RELA, info.rela) && IsLast(m, dyn, n, DT_RELASZ, info.relaSize)
    && SymtabIs(m, base, dyn, n, info.symtab)
  }

  ghost predicate SymtabIs(m: Memory, base: nat, dyn: nat, n: nat, symtab: nat)
    requires dyn + 16 * n <= |m|
  {
    || (IsLast(m, dyn, n, DT_SYMTAB, None) && symtab == 0)
    || exists x: nat ::
         IsLast(m, dyn, n, DT_SYMTAB, Some(x)) && x + 16 <= |m| && symtab == (Word(m, x + 8) + base) % WORD
  }

  /** One more entry is the last with its tag, and leaves the others as they were. */
  lemma IsLastStep(m: Memory, dyn: nat, n: nat, tag: nat, place: Option<nat>)
    requires dyn + 16 * (n + 1) <= |m| && IsLast(m, dyn, n, tag, place)
    ensures IsLast(m, dyn, n + 1, tag, if Tag(m, dyn, n) == tag then Some(dyn + 16 * n) else place)
  {
    hide Tag;
    if Tag(m, dyn, n) == tag {
      assert NoneAfter(m, dyn, n + 1, tag, n);
    } else if place.Some? {
      var i :| 0 <= i < n && place.value == dyn + 16 * i && Tag(m, dyn, i) == tag && NoneAfter(m, dyn, n, tag, i);
      assert NoneAfter(m, dyn, n + 1, tag, i);
    }
  }

  lemma SymtabStep(m: Memory, base: nat, dyn: nat, n: nat, symtab: nat)
    requires dyn + 16 * (n + 1) <= |m| && SymtabIs(m, base, dyn, n, symtab)
    ensures SymtabIs(m, base, dyn, n + 1,
              if Tag(m, dyn, n) == DT_SYMTAB then (Word(m, dyn + 16 * n + 8) + base) % WORD else symtab)
  {
    hide Tag, IsLast, Word;
    if IsLast(m, dyn, n, DT_SYMTAB, None) && symtab == 0 {
      IsLastStep(m, dyn, n, DT_SYMTAB, None);
    } else {
      var x: nat :| IsLast(m, dyn, n, DT_SYMTAB, Some(x)) && x + 16 <= |m| && symtab == (Word(m, x + 8) + base) % WORD;
      IsLastStep(m, dyn, n, DT_SYMTAB, Some(x));
    }
    if Tag(m, dyn, n) == DT_SYMTAB {
      var x := dyn + 16 * n;
      assert IsLast(m, dyn, n + 1, DT_SYMTAB, Some(x)) && x + 16 <= |m|;
    }
  }

  lemma FindsStep(m: Memory, base: nat, dyn: nat, n: nat, info: Info)
    requires dyn + 16 * (n + 1) <= |m| && Finds(m, base, dyn, n, info)
    requires Tag(m, dyn, n) != DT_RELR && Tag(m, dyn, n) != DT_JMPREL
    ensures var r := ScanOne(m, base, info, dyn + 16 * n); r.Some? && Finds(m, base, dyn, n + 1, r.value)
  {
    hide IsLast, SymtabIs, Word;
    IsLastStep(m, dyn, n, DT_REL, info.rel);
    IsLastStep(m, dyn, n, DT_RELSZ, info.relSize);
    IsLastStep(m, dyn, n, DT_RELA, info.rela);
    IsLastStep(m, dyn, n, DT_RELASZ, info.relaSize);
    SymtabStep(m, base, dyn, n, info.symtab);
  }

  /** The scan fails exactly on an unsupported entry, and otherwise finds the last entry of each kind. */
  lemma {:induction false} ScanFinds(m: Memory, base: nat, dyn: nat, n: nat)
    requires dyn + 16 * n <= |m|
    ensures Scan(m, base, dyn, n).None? <==> Unsupported(m, dyn, n)
    ensures Scan(m, base, dyn, n).Some? ==> Finds(m, base, dyn, n, Scan(m, base, dyn, n).value)
    decreases n
  {
    hide ScanOne, Finds, Tag;
    if n == 0 {
      FindsNothing(m, base, dyn);
    } else {
      ScanFinds(m, base, dyn, n - 1);
      var init := Scan(m, base, dyn, n - 1);
      var tag := Tag(m, dyn, n - 1);
      if tag == DT_RELR || tag == DT_JMPREL {
        if init.Some? {
          Refused(m, base, dyn, n - 1, init.value);
        }
        assert Unsupported(m, dyn, n);
      } else if init.Some? {
        FindsStep(m, base, dyn, n - 1, init.value);
      }
    }
  }

  lemma Refused(m: Memory, base: nat, dyn: nat, i: nat, info: Info)
    requires dyn + 16 * (i + 1) <= |m| && (Tag(m, dyn, i) == DT_RELR || Tag(m, dyn, i) == DT_JMPREL)
    ensures ScanOne(m, base, info, dyn + 16 * i) == None
  {
  }

  lemma FindsNothing(m: Memory, base: nat, dyn: nat)
    requires dyn <= |m|
    ensures Finds(m, base, dyn, 0, Info(None, None, None, None, 0))
  {
  }

  /** Where the tables are does not depend on the load address. */
  lemma {:induction false} ScanMoves(m: Memory, b: nat, b': nat, dyn: nat, n: nat)
    requires dyn + 16 * n <= |m|
    ensures var r, r' := Scan(m, b, dyn, n), Scan(m, b', dyn, n);
            r.None? == r'.None? && (r.Some? ==> r'.value == r.value.(symtab := r'.value.symtab))
    decreases n
  {
    hide Word;
    if n > 0 {
      ScanMoves(m, b, b', dyn, n - 1);
    }
  }

  predicate Located(m: Memory, ptr: Option<nat>) {
    ptr.Some? ==> ptr.value + 16 <= |m|
  }

  /** The table found through `ptr` and `size` can be applied. */
  predicate Applicable(m: Memory, kind: Kind, ptr: Option<nat>, size: Option<nat>) {
    && Located(m, ptr) && Located(m, size)
    && (ptr.Some? && size.Some? ==>
          Ready(m, kind, Word(m, ptr.value + 8), Count(kind, Word(m, size.value + 8))))
  }

  function ApplyTable(m: Memory, kind: Kind, base: nat, ptr: Option<nat>, size: Option<nat>): (bool, Memory)
    requires Applicable(m, kind, ptr, size)
  {
    if ptr.Some? != size.Some? then (false, m)
    else if ptr.None? then (true, m)
    else FixUp(m, kind, base, Table(m, kind, Word(m, ptr.value + 8), Count(kind, Word(m, size.value + 8))))
  }

  method ApplyTableInPlace(mem: array<byte>, kind: Kind, base: nat, ptr: Option<nat>, size: Option<nat>)
    returns (ok: bool)
    requires Applicable(mem[..], kind, ptr, size)
    modifies mem
    ensures (ok, mem[..]) == ApplyTable(old(mem[..]), kind, base, ptr, size)
  {
    hide Ready, FixUp, Table, Count, Word;
    ghost var m := mem[..];
    if ptr.Some? != size.Some? {
      return false;
    } else if ptr.None? {
      return true;
    }
    var a := GetWord(mem, ptr.value + 8);
    var s := GetWord(mem, size.value + 8);
    assert mem[..] == m;
    ok := FixUpRelxTable(mem, kind, base, a, s);
  }

  /** The switch on the tag of the entry at `x`. */
  method ScanEntry(mem: array<byte>, base: nat, found: Info, x: nat) returns (info: Option<Info>)
    requires x + 16 <= mem.Length
    ensures info == ScanOne(mem[..], base, found, x)
  {
    var tag := GetWord(mem, x);
    if tag == DT_RELA {
      return Some(found.(rela := Some(x)));
    } else if tag == DT_RELASZ {
      return Some(found.(relaSize := Some(x)));
    } else if tag == DT_REL {
      return Some(found.(rel := Some(x)));
    } else if tag == DT_RELSZ {
      return Some(found.(relSize := Some(x)));
    } else if tag == DT_SYMTAB {
      var ptr := GetWord(mem, x + 8);
      return Some(found.(symtab := (ptr + base) % WORD));
    } else if tag == DT_RELR || tag == DT_JMPREL {
      return None;
    }
    return Some(found);
  }

  method ScanSection(mem: array<byte>, base: nat, dyn: nat, ghost n: nat) returns (info: Option<Info>)
    requires Section(mem[..], dyn, n)
    ensures info == Scan(mem[..], base, dyn, n)
    ensures info.None? <==> Unsupported(mem[..], dyn, n)
    ensures info.Some? ==> Finds(mem[..], base, dyn, n, info.value)
  {
    hide ScanOne, Word, Unsupported, Finds;
    ScanFinds(mem[..], base, dyn, n);
    info := Some(Info(None, None, None, None, 0));
    var i := 0;
    var tag := GetWord(mem, dyn);
    while tag != DT_NULL
      invariant i <= n && tag == Tag(mem[..], dyn, i)
      invariant info.Some? && Scan(mem[..], base, dyn, i) == info
      decreases n - i
    {
      info := ScanEntry(mem, base, info.value, dyn + 16 * i);
      if info.None? {
        ScanFails(mem[..], base, dyn, i + 1, n);
        return None;
      }
      i := i + 1;
      tag := GetWord(mem, dyn + 16 * i);
    }
  }

  lemma {:induction false} ScanFails(m: Memory, base: nat, dyn: nat, i: nat, n: nat)
    requires i <= n && dyn + 16 * n <= |m| && Scan(m, base, dyn, i).None?
    ensures Scan(m, base, dyn, n).None?
    decreases n - i
  {
    if i < n {
      ScanFails(m, base, dyn, i + 1, n);
    }
  }

  // ----- Both passes ---------------------------------------------------------------------------

  /** The entries that a pass applies. */
  function Found(m: Memory, kind: Kind, ptr: Option<nat>, size: Option<nat>): (es: seq<Entry>)
    requires Applicable(m, kind, ptr, size)
    ensures InBounds(es, |m|)
  {
    if ptr.None? || size.None? then []
    else Table(m, kind, Word(m, ptr.value + 8), Count(kind, Word(m, size.value + 8)))
  }

  function TableStart(m: Memory, ptr: Option<nat>): nat
    requires Located(m, ptr)
  {
    if ptr.None? then 0 else Word(m, ptr.value + 8)
  }

  function TableEnd(m: Memory, kind: Kind, ptr: Option<nat>, size: Option<nat>): nat
    requires Located(m, ptr) && Located(m, size)
  {
    if ptr.None? || size.None? then TableStart(m, ptr)
    else At(kind, Word(m, ptr.value + 8), Count(kind, Word(m, size.value + 8)))
  }

  predicate ClearOf(es: seq<Entry>, ptr: Option<nat>) {
    ptr.Some? ==> Clear(es, ptr.value, ptr.value + 16)
  }

  /**
   An image as a linker lays it out: both tables are complete, all targets of both are apart from each other and
   relative, and what REL moves is neither in RELA's table nor in the entries through which that is found.
   */
  predicate LaidOut(m: Memory, info: Info) {
    && Applicable(m, Rel, info.rel, info.relSize) && Applicable(m, Rela, info.rela, info.relaSize)
    && info.rel.Some? == info.relSize.Some? && info.rela.Some? == info.relaSize.Some?
    && var rels, relas := Found(m, Rel, info.rel, info.relSize), Found(m, Rela, info.rela, info.relaSize);
    && Disjoint(rels + relas) && Relative(rels + relas)
    && ClearOf(rels, info.rela) && ClearOf(rels, info.relaSize)
    && Clear(rels, TableStart(m, info.rela), TableEnd(m, Rela, info.rela, info.relaSize))
  }

  /**
   `p` is the image loaded at `base`: REL targets hold the base and what they held, RELA targets the base and the
   addend, modulo 2^64, and all else is as it was.
   */
  ghost predicate LoadedAt(m: Memory, p: Memory, base: nat, rels: seq<Entry>, relas: seq<Entry>)
    requires InBounds(rels, |m|) && InBounds(relas, |m|)
  {
    && |p| == |m|
    && (forall i :: 0 <= i < |rels| ==> Word(p, rels[i].offset) == (base + Word(m, rels[i].offset)) % WORD)
    && (forall i :: 0 <= i < |relas| ==> Word(p, relas[i].offset) == (base + relas[i].addend) % WORD)
    && (forall x :: 0 <= x < |m| && !Targeted(rels, x) && !Targeted(relas, x) ==> p[x] == m[x])
  }

  lemma SplitTargets(rels: seq<Entry>, relas: seq<Entry>)
    requires Disjoint(rels + relas) && Relative(rels + relas)
    ensures Disjoint(rels) && Disjoint(relas) && Relative(rels) && Relative(relas)
    ensures forall i :: 0 <= i < |rels| ==> Apart(relas, rels[i].offset)
    ensures forall i :: 0 <= i < |relas| ==> Apart(rels, relas[i].offset)
  {
    var all := rels + relas;
    assert forall i :: 0 <= i < |rels| ==> all[i] == rels[i];
    assert forall i :: 0 <= i < |relas| ==> all[|rels| + i] == relas[i];
  }

  /** What no target overlaps keeps its bytes. */
  lemma ClearKept(m: Memory, p: Memory, kind: Kind, base: nat, es: seq<Entry>, a: nat, b: nat)
    requires InBounds(es, |m|) && Relocated(m, p, kind, base, es) && a <= b <= |m| && Clear(es, a, b)
    ensures p[a..b] == m[a..b]
  {
    hide Word;
    forall x | a <= x < b ensures !Targeted(es, x) {
    }
  }

  lemma SameTable(m: Memory, p: Memory, kind: Kind, a: nat, n: nat)
    requires |m| == |p| && At(kind, a, n) <= |m| && a <= At(kind, a, n) && m[a..At(kind, a, n)] == p[a..At(kind, a, n)]
    ensures Table(p, kind, a, n) == Table(m, kind, a, n)
  {
    hide Word, Table;
    forall i | 0 <= i < n ensures Table(p, kind, a, n)[i] == Table(m, kind, a, n)[i] {
      TableAt(m, kind, a, n, i);
      TableAt(p, kind, a, n, i);
      SameTableSameEntry(m, p, kind, a, n, i);
    }
  }

  /** RELA's table is found and reads the same in the memory that REL leaves. */
  lemma RelaStays(m: Memory, p: Memory, base: nat, rels: seq<Entry>, ptr: Option<nat>, size: Option<nat>)
    requires InBounds(rels, |m|) && Relocated(m, p, Rel, base, rels) && Applicable(m, Rela, ptr, size)
    requires ClearOf(rels, ptr) && ClearOf(rels, size)
    requires Clear(rels, TableStart(m, ptr), TableEnd(m, Rela, ptr, size))
    ensures Applicable(p, Rela, ptr, size) && Found(p, Rela, ptr, size) == Found(m, Rela, ptr, size)
  {
    hide Word, Table;
    if ptr.Some? && size.Some? {
      var a, s := Word(m, ptr.value + 8), Word(m, size.value + 8);
      ClearKept(m, p, Rel, base, rels, ptr.value, ptr.value + 16);
      ClearKept(m, p, Rel, base, rels, size.value, size.value + 16);
      SameWord(m, p, ptr.value, ptr.value + 16, ptr.value + 8);
      SameWord(m, p, size.value, size.value + 16, size.value + 8);
      ClearKept(m, p, Rel, base, rels, a, At(Rela, a, Count(Rela, s)));
      SameTable(m, p, Rela, a, Count(Rela, s));
    }
  }

  /** Both passes over an image that is laid out as it should be. */
  lemma BothPasses(m: Memory, base: nat, info: Info)
    requires LaidOut(m, info)
    ensures var (ok1, m1) := ApplyTable(m, Rel, base, info.rel, info.relSize);
      && ok1 && Applicable(m1, Rela, info.rela, info.relaSize)
      && var (ok2, m2) := ApplyTable(m1, Rela, base, info.rela, info.relaSize);
      && ok2
      && LoadedAt(m, m2, base, Found(m, Rel, info.rel, info.relSize), Found(m, Rela, info.rela, info.relaSize))
  {
    hide Word, Table, FixUp, Ready, Relocated;
    var rels, relas := Found(m, Rel, info.rel, info.relSize), Found(m, Rela, info.rela, info.relaSize);
    var m1 := FixUp(m, Rel, base, rels).1;
    SplitTargets(rels, relas);
    FixUpRelocates(m, Rel, base, rels);
    NoEntries(m, Rel, base, rels);
    RelaStays(m, m1, base, rels, info.rela, info.relaSize);
    FixUpRelocates(m1, Rela, base, relas);
    NoEntries(m1, Rela, base, relas);
    PassesLoad(m, m1, FixUp(m1, Rela, base, relas).1, base, rels, relas);
  }

  lemma NoEntries(m: Memory, kind: Kind, base: nat, es: seq<Entry>)
    requires InBounds(es, |m|)
    ensures es == [] ==> FixUp(m, kind, base, es) == (true, m)
  {
  }

  lemma PassesLoad(m: Memory, m1: Memory, m2: Memory, base: nat, rels: seq<Entry>, relas: seq<Entry>)
    requires InBounds(rels, |m|) && InBounds(relas, |m|)
    requires Relocated(m, m1, Rel, base, rels) && Relocated(m1, m2, Rela, base, relas)
    requires forall i :: 0 <= i < |rels| ==> Apart(relas, rels[i].offset)
    ensures LoadedAt(m, m2, base, rels, relas)
  {
    hide Word;
    forall i | 0 <= i < |rels| ensures Word(m2, rels[i].offset) == (base + Word(m, rels[i].offset)) % WORD {
      UntouchedWord(m1, m2, Rela, base, relas, rels[i].offset);
    }
  }

  /** The same image loaded at two addresses: only the targets differ, each by the difference of the addresses. */
  lemma LoadsDiffer(m: Memory, p: Memory, p': Memory, b: nat, b': nat, rels: seq<Entry>, relas: seq<Entry>)
    requires InBounds(rels, |m|) && InBounds(relas, |m|)
    requires LoadedAt(m, p, b, rels, relas) && LoadedAt(m, p', b', rels, relas)
    ensures InBounds(rels + relas, |p|) && DifferByBase(p, p', b, b', rels + relas)
  {
    hide Word;
    var all := rels + relas;
    forall i | 0 <= i < |all| ensures (Word(p, all[i].offset) + b') % WORD == (Word(p', all[i].offset) + b) % WORD {
      if i < |rels| {
        assert all[i] == rels[i];
        CrossSum(b, b', Word(m, rels[i].offset));
      } else {
        assert all[i] == relas[i - |rels|];
        CrossSum(b, b', relas[i - |rels|].addend);
      }
    }
    forall x | 0 <= x < |p| && !Targeted(all, x) ensures p[x] == p'[x] {
      NotTargeted(rels, relas, x);
    }
  }

  lemma NotTargeted(rels: seq<Entry>, relas: seq<Entry>, x: nat)
    requires !Targeted(rels + relas, x)
    ensures !Targeted(rels, x) && !Targeted(relas, x)
  {
    var all := rels + relas;
    forall i | 0 <= i < |rels| ensures !(rels[i].offset <= x < rels[i].offset + 8) {
      assert all[i] == rels[i];
    }
    forall i | 0 <= i < |relas| ensures !(relas[i].offset <= x < relas[i].offset + 8) {
      assert all[|rels| + i] == relas[i];
    }
  }

  // ----- The whole relocation --------------------------------------------------------------------

  /** REL can be applied, and RELA, whose table is found in the memory REL has left. */
  predicate Loadable(m: Memory, base: nat, info: Info) {
    && Applicable(m, Rel, info.rel, info.relSize)
    && Applicable(ApplyTable(m, Rel, base, info.rel, info.relSize).1, Rela, info.rela, info.relaSize)
  }

  /** Whether the relocation succeeds, and the memory it leaves. */
  function Relocate(m: Memory, base: nat, dyn: nat, n: nat): (r: (bool, Memory))
    requires Section(m, dyn, n)
    requires Scan(m, base, dyn, n).Some? ==> Loadable(m, base, Scan(m, base, dyn, n).value)
  {
    match Scan(m, base, dyn, n)
    case None => (false, m)
    case Some(info) =>
      if info.symtab == 0 then (false, m)
      else
        var (ok1, m1) := ApplyTable(m, Rel, base, info.rel, info.relSize);
        if !ok1 then (false, m1) else ApplyTable(m1, Rela, base, info.rela, info.relaSize)
  }

  /** An image laid out as it should be is loaded, with every target of both tables moved once. */
  lemma RelocateLoads(m: Memory, base: nat, dyn: nat, n: nat)
    requires Section(m, dyn, n) && Scan(m, base, dyn, n).Some?
    requires var info := Scan(m, base, dyn, n).value; info.symtab != 0 && LaidOut(m, info)
    ensures var info := Scan(m, base, dyn, n).value;
      && Loadable(m, base, info)
      && Relocate(m, base, dyn, n).0
      && LoadedAt(m, Relocate(m, base, dyn, n).1, base,
                  Found(m, Rel, info.rel, info.relSize), Found(m, Rela, info.rela, info.relaSize))
  {
    hide Scan, ApplyTable, Applicable, LoadedAt, Found, Disjoint, Relative, Clear;
    BothPasses(m, base, Scan(m, base, dyn, n).value);
  }

  /** Loaded at two addresses, the image differs at the targets of both tables by the addresses, and nowhere else. */
  lemma TwoLoads(m: Memory, b: nat, b': nat, dyn: nat, n: nat)
    requires Section(m, dyn, n) && Scan(m, b, dyn, n).Some? && Scan(m, b', dyn, n).Some?
    requires Scan(m, b, dyn, n).value.symtab != 0 && Scan(m, b', dyn, n).value.symtab != 0
    requires LaidOut(m, Scan(m, b, dyn, n).value)
    ensures var info := Scan(m, b, dyn, n).value;
      && LaidOut(m, Scan(m, b', dyn, n).value)
      && Loadable(m, b, info) && Loadable(m, b', Scan(m, b', dyn, n).value)
      && var es := Found(m, Rel, info.rel, info.relSize) + Found(m, Rela, info.rela, info.relaSize);
      && var p, p' := Relocate(m, b, dyn, n), Relocate(m, b', dyn, n);
      && p.0 && p'.0 && |p.1| == |p'.1| == |m| && InBounds(es, |m|) && DifferByBase(p.1, p'.1, b, b', es)
  {
    var info, info' := Scan(m, b, dyn, n).value, Scan(m, b', dyn, n).value;
    assert info' == info.(symtab := info'.symtab) by { ScanMoves(m, b, b', dyn, n); }
    LaidOutMoves(m, info, info');
    TwoLoadsFrom(m, b, b', dyn, n, info, info');
  }

  lemma LaidOutMoves(m: Memory, info: Info, info': Info)
    requires LaidOut(m, info) && info' == info.(symtab := info'.symtab)
    ensures LaidOut(m, info')
  {
    hide Applicable, Found, Disjoint, Relative, Clear;
  }

  lemma TwoLoadsFrom(m: Memory, b: nat, b': nat, dyn: nat, n: nat, info: Info, info': Info)
    requires Section(m, dyn, n) && Scan(m, b, dyn, n) == Some(info) && Scan(m, b', dyn, n) == Some(info')
    requires info.symtab != 0 && info'.symtab != 0 && info' == info.(symtab := info'.symtab)
    requires LaidOut(m, info) && LaidOut(m, info')
    ensures Loadable(m, b, info) && Loadable(m, b', info')
    ensures var es := Found(m, Rel, info.rel, info.relSize) + Found(m, Rela, info.rela, info.relaSize);
      && var p, p' := Relocate(m, b, dyn, n), Relocate(m, b', dyn, n);
      && p.0 && p'.0 && |p.1| == |p'.1| == |m| && InBounds(es, |m|) && DifferByBase(p.1, p'.1, b, b', es)
  {
    hide Scan, ApplyTable, Applicable, Found, Relocate, DifferByBase, Word;
    RelocateLoads(m, b, dyn, n);
    RelocateLoads(m, b', dyn, n);
    var rels, relas := Found(m, Rel, info.rel, info.relSize), Found(m, Rela, info.rela, info.relaSize);
    LoadsDiffer(m, Relocate(m, b, dyn, n).1, Relocate(m, b', dyn, n).1, b, b', rels, relas);
  }

  /** The whole relocation: REL first, then RELA, whose table is found in the memory REL has left. */
  method ApplyRelocation(mem: array<byte>, base: nat, dyn: nat, ghost n: nat) returns (ok: bool)
    requires Section(mem[..], dyn, n)
    requires Scan(mem[..], base, dyn, n).Some? ==> Loadable(mem[..], base, Scan(mem[..], base, dyn, n).value)
    modifies mem
    ensures (ok, mem[..]) == Relocate(old(mem[..]), base, dyn, n)
    ensures var m := old(mem[..]);
      Unsupported(m, dyn, n) ==> !ok && mem[..] == m
    ensures var m := old(mem[..]);
      var scan := Scan(m, base, dyn, n);
      scan.Some? && scan.value.symtab != 0 && LaidOut(m, scan.value) ==>
        && ok
        && LoadedAt(m, mem[..], base, Found(m, Rel, scan.value.rel, scan.value.relSize),
                    Found(m, Rela, scan.value.rela, scan.value.relaSize))
  {
    hide Scan, Tag, Applicable, ApplyTable, LaidOut, LoadedAt, Found, Unsupported;
    ghost var m := mem[..];
    ghost var scan := Scan(m, base, dyn, n);
    ScanFinds(m, base, dyn, n);
    if scan.Some? && scan.value.symtab != 0 && LaidOut(m, scan.value) {
      RelocateLoads(m, base, dyn, n);
    }
    var info := ScanSection(mem, base, dyn, n);
    if info.None? || info.value.symtab == 0 {
      return false;
    }
    ok := ApplyTableInPlace(mem, Rel, base, info.value.rel, info.value.relSize);
    if ok {
      ok := ApplyTableInPlace(mem, Rela, base, info.value.rela, info.value.relaSize);
    }
  }
}
