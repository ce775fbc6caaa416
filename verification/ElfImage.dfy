/**
 The bytes of an ELF image: dynamic section and relocation tables as the System V gABI lays them out (chapter 5), and
 what relocation makes of an image that holds them.
 */
module ElfImage {
  import opened Basics
  import opened ByteOrder
  import opened Words
  import opened Relocation
  import opened DynamicSection

  predicate HoldsAt(m: Memory, a: nat, bytes: Memory) {
    a + |bytes| <= |m| && m[a..a + |bytes|] == bytes
  }

  lemma HoldsParts(m: Memory, a: nat, x: Memory, y: Memory)
    requires HoldsAt(m, a, x + y)
    ensures HoldsAt(m, a, x) && HoldsAt(m, a + |x|, y)
  {
    var b := m[a..a + |x + y|];
    assert b[..|x|] == x && b[|x|..] == y;
    assert m[a..a + |x|] == b[..|x|];
    assert m[a + |x|..a + |x| + |y|] == b[|x|..];
  }

  lemma WordReads(m: Memory, a: nat, v: nat)
    requires v < WORD && HoldsAt(m, a, ToLe(v, 8))
    ensures Word(m, a) == v
  {
    Powers();
    FromToLe(v, 8);
  }

  // ----- Relocation tables ---------------------------------------------------------------------

  /** Offset and info; RELA entries have their addend behind them. */
  function EntryBytes(kind: Kind, e: Entry): (s: Memory)
    ensures |s| == kind.Size()
  {
    ToLe(e.offset, 8) + ToLe(e.info, 8) + if kind.Rela? then ToLe(e.addend, 8) else []
  }

  function TableBytes(kind: Kind, es: seq<Entry>): (s: Memory)
    ensures |s| == At(kind, 0, |es|)
    decreases |es|
  {
    if es == [] then [] else TableBytes(kind, es[..|es| - 1]) + EntryBytes(kind, es[|es| - 1])
  }

  /** The fields are words, and a REL entry has no addend. */
  predicate Representable(kind: Kind, e: Entry) {
    e.offset < WORD && e.info < WORD && e.addend < WORD && (kind.Rel? ==> e.addend == 0)
  }

  predicate AllRepresentable(kind: Kind, es: seq<Entry>) {
    forall i :: 0 <= i < |es| ==> Representable(kind, es[i])
  }

  /** An entry is read from its bytes. */
  lemma EntryReads(m: Memory, kind: Kind, a: nat, e: Entry)
    requires Representable(kind, e) && HoldsAt(m, a, EntryBytes(kind, e))
    ensures EntryAt(m, kind, a) == e
  {
    hide ToLe, Word;
    var offset, info := ToLe(e.offset, 8), ToLe(e.info, 8);
    var addend := if kind.Rela? then ToLe(e.addend, 8) else [];
    HoldsParts(m, a, offset + info, addend);
    HoldsParts(m, a, offset, info);
    WordReads(m, a, e.offset);
    WordReads(m, a + 8, e.info);
    if kind.Rela? {
      WordReads(m, a + 16, e.addend);
    }
  }

  /** And a table from the bytes of its entries. */
  lemma {:induction false} TableReads(m: Memory, kind: Kind, a: nat, es: seq<Entry>)
    requires AllRepresentable(kind, es) && HoldsAt(m, a, TableBytes(kind, es))
    ensures At(kind, a, |es|) <= |m| && Table(m, kind, a, |es|) == es
    decreases |es|
  {
    hide EntryBytes, EntryAt;
    if es != [] {
      var init, e := es[..|es| - 1], es[|es| - 1];
      HoldsParts(m, a, TableBytes(kind, init), EntryBytes(kind, e));
      TableReads(m, kind, a, init);
      EntryReads(m, kind, At(kind, a, |init|), e);
      assert es == init + [e];
    }
  }

  // ----- The dynamic section ---------------------------------------------------------------------

  datatype Dyn = Dyn(tag: nat, value: nat)

  function DynBytes(d: Dyn): (s: Memory)
    ensures |s| == 16
  {
    ToLe(d.tag, 8) + ToLe(d.value, 8)
  }

  function SectionBytes(ds: seq<Dyn>): (s: Memory)
    ensures |s| == 16 * |ds|
    decreases |ds|
  {
    if ds == [] then [] else SectionBytes(ds[..|ds| - 1]) + DynBytes(ds[|ds| - 1])
  }

  predicate AreWords(ds: seq<Dyn>) {
    forall i :: 0 <= i < |ds| ==> ds[i].tag < WORD && ds[i].value < WORD
  }

  /** The value of the last entry with the tag. */
  function Value(ds: seq<Dyn>, tag: nat): Option<nat>
    decreases |ds|
  {
    if ds == [] then None
    else if ds[|ds| - 1].tag == tag then Some(ds[|ds| - 1].value)
    else Value(ds[..|ds| - 1], tag)
  }

  predicate NoTag(ds: seq<Dyn>, tag: nat) {
    forall i :: 0 <= i < |ds| ==> ds[i].tag != tag
  }

  lemma {:induction false} DynReads(m: Memory, dyn: nat, ds: seq<Dyn>, i: nat)
    requires AreWords(ds) && HoldsAt(m, dyn, SectionBytes(ds)) && i < |ds|
    ensures Tag(m, dyn, i) == ds[i].tag && Word(m, dyn + 16 * i + 8) == ds[i].value
    decreases |ds|
  {
    hide ToLe, Word;
    var init, d := ds[..|ds| - 1], ds[|ds| - 1];
    HoldsParts(m, dyn, SectionBytes(init), DynBytes(d));
    if i < |init| {
      DynReads(m, dyn, init, i);
    } else {
      HoldsParts(m, dyn + 16 * i, ToLe(d.tag, 8), ToLe(d.value, 8));
      WordReads(m, dyn + 16 * i, d.tag);
      WordReads(m, dyn + 16 * i + 8, d.value);
    }
  }

  lemma {:induction false} ValueIs(ds: seq<Dyn>, tag: nat, i: nat)
    requires i < |ds| && ds[i].tag == tag && forall j :: i < j < |ds| ==> ds[j].tag != tag
    ensures Value(ds, tag) == Some(ds[i].value)
    decreases |ds|
  {
    if i < |ds| - 1 {
      ValueIs(ds[..|ds| - 1], tag, i);
    }
  }

  lemma {:induction false} NoValue(ds: seq<Dyn>, tag: nat)
    requires NoTag(ds, tag)
    ensures Value(ds, tag) == None
    decreases |ds|
  {
    if ds != [] {
      NoValue(ds[..|ds| - 1], tag);
    }
  }

  /** The place that the scan finds for a tag holds the value of the last entry with that tag. */
  lemma PlaceHoldsValue(m: Memory, dyn: nat, ds: seq<Dyn>, tag: nat, place: Option<nat>)
    requires AreWords(ds) && HoldsAt(m, dyn, SectionBytes(ds)) && IsLast(m, dyn, |ds|, tag, place)
    ensures place.None? ==> Value(ds, tag).None?
    ensures place.Some? ==>
      dyn <= place.value <= dyn + 16 * |ds| - 16 && Value(ds, tag) == Some(Word(m, place.value + 8))
  {
    hide Word, Tag, SectionBytes;
    forall i | 0 <= i < |ds| ensures Tag(m, dyn, i) == ds[i].tag {
      DynReads(m, dyn, ds, i);
    }
    if place.None? {
      NoValue(ds, tag);
    } else {
      var i :| 0 <= i < |ds| && place.value == dyn + 16 * i && Tag(m, dyn, i) == tag && NoneAfter(m, dyn, |ds|, tag, i);
      DynReads(m, dyn, ds, i);
      ValueIs(ds, tag, i);
    }
  }

  // ----- Images ------------------------------------------------------------------------------------

  /** The table of these entries is where the section says, of the size it says, and not among its own targets. */
  predicate TableThere(m: Memory, kind: Kind, ds: seq<Dyn>, ptrTag: nat, sizeTag: nat, es: seq<Entry>) {
    var ptr, size := Value(ds, ptrTag), Value(ds, sizeTag);
    && AllRepresentable(kind, es)
    && ptr.Some? == size.Some?
    && (ptr.None? ==> es == [])
    && (ptr.Some? ==>
          && HoldsAt(m, ptr.value, TableBytes(kind, es))
          && At(kind, 0, |es|) <= size.value < At(kind, 0, |es| + 1)
          && Clear(es, ptr.value, At(kind, ptr.value, |es|)))
  }

  lemma TableFound(m: Memory, kind: Kind, dyn: nat, ds: seq<Dyn>, ptrTag: nat, sizeTag: nat, es: seq<Entry>,
                   ptr: Option<nat>, size: Option<nat>)
    requires AreWords(ds) && HoldsAt(m, dyn, SectionBytes(ds))
    requires TableThere(m, kind, ds, ptrTag, sizeTag, es) && InBounds(es, |m|)
    requires IsLast(m, dyn, |ds|, ptrTag, ptr) && IsLast(m, dyn, |ds|, sizeTag, size)
    ensures ptr.Some? == size.Some? && Applicable(m, kind, ptr, size) && Found(m, kind, ptr, size) == es
    ensures ptr.Some? ==>
      && Value(ds, ptrTag).Some? && TableStart(m, ptr) == Value(ds, ptrTag).value
      && TableEnd(m, kind, ptr, size) == At(kind, TableStart(m, ptr), |es|)
      && dyn <= ptr.value <= dyn + 16 * |ds| - 16 && dyn <= size.value <= dyn + 16 * |ds| - 16
  {
    hide Word, Table, IsLast, SectionBytes, TableBytes, Value, Clear, InBounds;
    PlaceHoldsValue(m, dyn, ds, ptrTag, ptr);
    PlaceHoldsValue(m, dyn, ds, sizeTag, size);
    if ptr.Some? {
      CountIs(kind, Word(m, size.value + 8), |es|);
      TableReads(m, kind, Word(m, ptr.value + 8), es);
    }
  }

  lemma CountIs(kind: Kind, size: nat, n: nat)
    requires At(kind, 0, n) <= size < At(kind, 0, n + 1)
    ensures Count(kind, size) == n
  {
  }

  /**
   The image holds a dynamic section `ds` with its terminator and the two tables.  All entries are relative; no
   targets overlap; what REL moves is neither in the section nor in RELA's table.
   */
  predicate Linked(m: Memory, dyn: nat, ds: seq<Dyn>, rels: seq<Entry>, relas: seq<Entry>) {
    && AreWords(ds) && HoldsAt(m, dyn, SectionBytes(ds)) && HoldsAt(m, dyn + 16 * |ds|, ToLe(0, 8))
    && NoTag(ds, 0) && NoTag(ds, 23) && NoTag(ds, 36)
    && TableThere(m, Rel, ds, 17, 18, rels) && TableThere(m, Rela, ds, 7, 8, relas)
    && InBounds(rels + relas, |m|) && Disjoint(rels + relas)
    && (forall i :: 0 <= i < |rels + relas| ==> (rels + relas)[i].info % 0x1_0000_0000 == 3)
    && Clear(rels, dyn, dyn + 16 * |ds|)
    && (Value(ds, 7).Some? ==> Clear(rels, Value(ds, 7).value, At(Rela, Value(ds, 7).value, |relas|)))
  }

  lemma LinkedSection(m: Memory, base: nat, dyn: nat, ds: seq<Dyn>, rels: seq<Entry>, relas: seq<Entry>)
    requires Linked(m, dyn, ds, rels, relas)
    ensures Section(m, dyn, |ds|) && Scan(m, base, dyn, |ds|).Some?
    ensures Finds(m, base, dyn, |ds|, Scan(m, base, dyn, |ds|).value)
    ensures var symtab := Scan(m, base, dyn, |ds|).value.symtab;
            symtab == match Value(ds, 6) { case None => 0 case Some(v) => (v + base) % WORD }
  {
    hide Word, Tag, SectionBytes, TableThere, Disjoint, Clear, InBounds, Value, Scan, Finds;
    forall i | 0 <= i < |ds| ensures Tag(m, dyn, i) == ds[i].tag {
      DynReads(m, dyn, ds, i);
    }
    assert Tag(m, dyn, |ds|) == 0 by { TerminatorReads(m, dyn, |ds|); }
    ScanFinds(m, base, dyn, |ds|);
    SymtabFound(m, base, dyn, ds, Scan(m, base, dyn, |ds|).value);
  }

  lemma TerminatorReads(m: Memory, dyn: nat, n: nat)
    requires HoldsAt(m, dyn + 16 * n, ToLe(0, 8))
    ensures dyn + 16 * n + 8 <= |m| && Tag(m, dyn, n) == 0
  {
    hide ToLe;
    WordReads(m, dyn + 16 * n, 0);
  }

  lemma SymtabFound(m: Memory, base: nat, dyn: nat, ds: seq<Dyn>, info: Info)
    requires AreWords(ds) && HoldsAt(m, dyn, SectionBytes(ds)) && Finds(m, base, dyn, |ds|, info)
    ensures info.symtab == match Value(ds, 6) { case None => 0 case Some(v) => (v + base) % WORD }
  {
    hide Word, SectionBytes, IsLast, Value;
    if IsLast(m, dyn, |ds|, 6, None) && info.symtab == 0 {
      PlaceHoldsValue(m, dyn, ds, 6, None);
    } else {
      var x: nat :| IsLast(m, dyn, |ds|, 6, Some(x)) && x + 16 <= |m| && info.symtab == (Word(m, x + 8) + base) % WORD;
      PlaceHoldsValue(m, dyn, ds, 6, Some(x));
    }
  }

  lemma LinkedLaysOut(m: Memory, base: nat, dyn: nat, ds: seq<Dyn>, rels: seq<Entry>, relas: seq<Entry>, info: Info)
    requires Linked(m, dyn, ds, rels, relas) && dyn + 16 * |ds| <= |m| && Finds(m, base, dyn, |ds|, info)
    ensures LaidOut(m, info)
    ensures Found(m, Rel, info.rel, info.relSize) == rels && Found(m, Rela, info.rela, info.relaSize) == relas
  {
    hide Word, SectionBytes, IsLast, Value, TableThere, Disjoint, Applicable, Found, SymtabIs, TableStart, TableEnd;
    EachInBounds(rels, relas, |m|);
    TableFound(m, Rel, dyn, ds, 17, 18, rels, info.rel, info.relSize);
    TableFound(m, Rela, dyn, ds, 7, 8, relas, info.rela, info.relaSize);
    if info.rela.None? {
      NothingThere(m, info.rela, info.relaSize);
    }
  }

  lemma NothingThere(m: Memory, ptr: Option<nat>, size: Option<nat>)
    requires ptr.None? && size.None?
    ensures TableStart(m, ptr) == 0 && TableEnd(m, Rela, ptr, size) == 0
  {
  }

  lemma EachInBounds(rels: seq<Entry>, relas: seq<Entry>, size: nat)
    requires InBounds(rels + relas, size)
    ensures InBounds(rels, size) && InBounds(relas, size)
  {
    var all := rels + relas;
    assert forall i :: 0 <= i < |rels| ==> all[i] == rels[i];
    assert forall i :: 0 <= i < |relas| ==> all[|rels| + i] == relas[i];
  }

  /**
   An image that holds dynamic section and tables byte for byte is loaded: every REL target then holds the base plus
   what it held, every RELA target the base plus its addend, and nothing else has changed; without a symbol table it
   is refused as it is.
   */
  lemma LinkedLoads(m: Memory, base: nat, dyn: nat, ds: seq<Dyn>, rels: seq<Entry>, relas: seq<Entry>)
    requires Linked(m, dyn, ds, rels, relas)
    ensures Section(m, dyn, |ds|) && Scan(m, base, dyn, |ds|).Some?
    ensures Loadable(m, base, Scan(m, base, dyn, |ds|).value)
    ensures InBounds(rels, |m|) && InBounds(relas, |m|)
    ensures var (ok, p) := Relocate(m, base, dyn, |ds|);
            if Value(ds, 6).Some? && (Value(ds, 6).value + base) % WORD != 0 then
              ok && LoadedAt(m, p, base, rels, relas)
            else !ok && p == m
  {
    hide Linked, Scan, Finds, LaidOut, Found, LoadedAt, Value, Loadable, Section;
    LinkedSection(m, base, dyn, ds, rels, relas);
    SectionFits(m, dyn, |ds|);
    var info := Scan(m, base, dyn, |ds|).value;
    LinkedLaysOut(m, base, dyn, ds, rels, relas, info);
    LinkedInBounds(m, dyn, ds, rels, relas);
    LaidOutIsLoadable(m, base, info);
    if info.symtab != 0 {
      RelocateLoads(m, base, dyn, |ds|);
    }
  }

  lemma SectionFits(m: Memory, dyn: nat, n: nat)
    requires Section(m, dyn, n)
    ensures dyn + 16 * n <= |m|
  {
  }

  lemma LinkedInBounds(m: Memory, dyn: nat, ds: seq<Dyn>, rels: seq<Entry>, relas: seq<Entry>)
    requires Linked(m, dyn, ds, rels, relas)
    ensures InBounds(rels, |m|) && InBounds(relas, |m|)
  {
    hide TableThere, SectionBytes, Disjoint, Clear;
    EachInBounds(rels, relas, |m|);
  }

  lemma LaidOutIsLoadable(m: Memory, base: nat, info: Info)
    requires LaidOut(m, info)
    ensures Loadable(m, base, info)
  {
    hide LaidOut, ApplyTable, Applicable, Found, LoadedAt;
    BothPasses(m, base, info);
    LaidOutApplies(m, info);
  }

  lemma LaidOutApplies(m: Memory, info: Info)
    requires LaidOut(m, info)
    ensures Applicable(m, Rel, info.rel, info.relSize)
  {
    hide Applicable, Found;
  }

  /** The image holds the dynamic section `ds` and its terminator. */
  predicate Listed(m: Memory, dyn: nat, ds: seq<Dyn>) {
    && AreWords(ds) && NoTag(ds, 0)
    && HoldsAt(m, dyn, SectionBytes(ds)) && HoldsAt(m, dyn + 16 * |ds|, ToLe(0, 8))
  }

  lemma ListedSection(m: Memory, dyn: nat, ds: seq<Dyn>)
    requires Listed(m, dyn, ds)
    ensures Section(m, dyn, |ds|)
    ensures Unsupported(m, dyn, |ds|) <==> !NoTag(ds, 23) || !NoTag(ds, 36)
  {
    hide Word, Tag, SectionBytes;
    forall i | 0 <= i < |ds| ensures Tag(m, dyn, i) == ds[i].tag {
      DynReads(m, dyn, ds, i);
    }
    TerminatorReads(m, dyn, |ds|);
  }

  /** Refused are unsupported tags, and a table without its size or a size without its table. */
  lemma IncompleteRefused(m: Memory, base: nat, dyn: nat, ds: seq<Dyn>)
    requires Listed(m, dyn, ds)
    requires Section(m, dyn, |ds|)
    requires Scan(m, base, dyn, |ds|).Some? ==> Loadable(m, base, Scan(m, base, dyn, |ds|).value)
    ensures !NoTag(ds, 23) || !NoTag(ds, 36) ==> Relocate(m, base, dyn, |ds|) == (false, m)
    ensures Value(ds, 17).Some? != Value(ds, 18).Some? ==> Relocate(m, base, dyn, |ds|) == (false, m)
    ensures Value(ds, 7).Some? != Value(ds, 8).Some? ==> !Relocate(m, base, dyn, |ds|).0
  {
    hide Word, SectionBytes, Scan, Unsupported, FixUp, Table, Ready, Value, IsLast, SymtabIs, Section;
    SectionFits(m, dyn, |ds|);
    ListedSection(m, dyn, ds);
    ScanFinds(m, base, dyn, |ds|);
    if Scan(m, base, dyn, |ds|).Some? {
      var info := Scan(m, base, dyn, |ds|).value;
      PlaceHoldsValue(m, dyn, ds, 17, info.rel);
      PlaceHoldsValue(m, dyn, ds, 18, info.relSize);
      PlaceHoldsValue(m, dyn, ds, 7, info.rela);
      PlaceHoldsValue(m, dyn, ds, 8, info.relaSize);
    }
  }
}
