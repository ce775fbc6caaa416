/**
 Generation of the EFI memory attributes table: every runtime region of the memory map is cut up
 along the firmware's own table, and what that table does not describe is filled in.
 */
module Emat {

  const PAGE_SIZE := 4096
  const HEADER_SIZE := 16
  const DESCRIPTOR_SIZE := 40
  const RUNTIME := 0x8000_0000_0000_0000
  const U64_LIMIT := 0x1_0000_0000_0000_0000

  datatype Descriptor = Descriptor(memoryType: nat, start: nat, virtualStart: nat, pages: nat, attributes: nat) {
    function End(): nat {
      start + pages * PAGE_SIZE
    }

    /** The top bit of the attributes. */
    predicate IsRuntime() {
      attributes / RUNTIME % 2 == 1
    }

    predicate Covers(x: nat) {
      start <= x < End()
    }
  }

  /** Of 64 bits of attributes, the highest. */
  lemma RuntimeIsTopBit(d: Descriptor)
    requires d.attributes < U64_LIMIT
    ensures d.IsRuntime() <==> d.attributes >= 0x8000_0000_0000_0000
  {
  }

  /** A descriptor for `[lo, hi)`, which the table says nothing about. */
  function Filler(lo: nat, hi: nat, memoryType: nat): Descriptor
    requires lo <= hi
  {
    Descriptor(memoryType, lo, 0, (hi - lo) / PAGE_SIZE, RUNTIME)
  }

  // ----- What section 4.6.4 of UEFI 2.10 promises about the inputs -----------------------------

  predicate WellFormed(d: Descriptor) {
    d.start % PAGE_SIZE == 0 && d.pages > 0 && d.End() < U64_LIMIT
  }

  predicate Sorted(table: seq<Descriptor>) {
    forall i, j :: 0 <= i < j < |table| ==> table[i].End() <= table[j].start
  }

  predicate Within(e: Descriptor, r: Descriptor) {
    r.start <= e.start && e.End() <= r.End()
  }

  ghost predicate Conforming(map_: seq<Descriptor>, table: seq<Descriptor>) {
    && (forall i :: 0 <= i < |map_| ==> WellFormed(map_[i]))
    && (forall i, j :: 0 <= i < j < |map_| ==> map_[i].End() <= map_[j].start || map_[j].End() <= map_[i].start)
    && (forall i :: 0 <= i < |table| ==> WellFormed(table[i]))
    && Sorted(table)
    && (forall i :: 0 <= i < |table| ==> exists j :: 0 <= j < |map_| && Within(table[i], map_[j]))
  }

  // ----- The records for one region ----------------------------------------------------------

  function SkipBelow(table: seq<Descriptor>, lo: nat): seq<Descriptor> {
    if table != [] && table[0].start < lo then SkipBelow(table[1..], lo) else table
  }

  function TakeBelow(table: seq<Descriptor>, hi: nat): seq<Descriptor> {
    if table != [] && table[0].start < hi then [table[0]] + TakeBelow(table[1..], hi) else []
  }

  /** The table entries that start inside the region. */
  function Inside(table: seq<Descriptor>, r: Descriptor): seq<Descriptor> {
    TakeBelow(SkipBelow(table, r.start), r.End())
  }

  /** A gap before an entry is filled in, and the entry itself is then passed over. */
  function Cut(lo: nat, hi: nat, es: seq<Descriptor>, memoryType: nat): seq<Descriptor>
    requires Fits(lo, hi, es)
    decreases |es|
  {
    if es == [] then
      if lo == hi then [] else [Filler(lo, hi, memoryType)]
    else if es[0].start > lo then
      [Filler(lo, es[0].start, es[0].memoryType)] + Cut(es[0].start, hi, es[1..], memoryType)
    else
      [es[0]] + Cut(es[0].End(), hi, es[1..], memoryType)
  }

  /** Well-formed, sorted entries inside `[lo, hi)`. */
  predicate Fits(lo: nat, hi: nat, es: seq<Descriptor>) {
    && lo <= hi && lo % PAGE_SIZE == 0 && hi % PAGE_SIZE == 0
    && Sorted(es)
    && (forall i :: 0 <= i < |es| ==> WellFormed(es[i]) && lo <= es[i].start && es[i].End() <= hi)
  }

  /** One after the other, the records fill `[lo, hi)` with neither gap nor overlap. */
  predicate Tiles(rs: seq<Descriptor>, lo: nat, hi: nat)
    decreases |rs|
  {
    if rs == [] then lo == hi
    else rs[0].start == lo && rs[0].pages > 0 && rs[0].End() <= hi && Tiles(rs[1..], rs[0].End(), hi)
  }

  function Pages(rs: seq<Descriptor>): nat {
    if rs == [] then 0 else rs[0].pages + Pages(rs[1..])
  }

  lemma FillerFills(lo: nat, hi: nat, memoryType: nat)
    requires lo < hi && lo % PAGE_SIZE == 0 && hi % PAGE_SIZE == 0
    ensures Filler(lo, hi, memoryType).End() == hi && Filler(lo, hi, memoryType).pages > 0
  {
  }

  lemma EndIsAligned(e: Descriptor)
    requires WellFormed(e)
    ensures e.End() % PAGE_SIZE == 0 && e.start < e.End()
  {
  }

  lemma {:induction false} CutTiles(lo: nat, hi: nat, es: seq<Descriptor>, memoryType: nat)
    requires Fits(lo, hi, es)
    ensures Tiles(Cut(lo, hi, es, memoryType), lo, hi)
    decreases |es|
  {
    if es == [] {
      if lo < hi {
        FillerFills(lo, hi, memoryType);
      }
    } else if es[0].start > lo {
      EndIsAligned(es[0]);
      FillerFills(lo, es[0].start, es[0].memoryType);
      CutTiles(es[0].start, hi, es[1..], memoryType);
    } else {
      EndIsAligned(es[0]);
      CutTiles(es[0].End(), hi, es[1..], memoryType);
    }
  }

  /** Tiling conserves the page count. */
  lemma {:induction false} TilesConservePages(rs: seq<Descriptor>, lo: nat, hi: nat)
    requires Tiles(rs, lo, hi)
    ensures lo <= hi && Pages(rs) * 4096 == hi - lo
    decreases |rs|
  {
    if rs != [] {
      TilesConservePages(rs[1..], rs[0].End(), hi);
    }
  }

  // ----- What becomes of the table's entries -------------------------------------------------

  /** The first entry that does not start where the one before it ends. */
  function FirstGap(lo: nat, es: seq<Descriptor>): nat
    decreases |es|
  {
    if es == [] || es[0].start > lo then 0 else 1 + FirstGap(es[0].End(), es[1..])
  }

  function LastEnd(lo: nat, es: seq<Descriptor>): nat {
    if es == [] then lo else es[|es| - 1].End()
  }

  lemma CutStep(lo: nat, hi: nat, es: seq<Descriptor>, memoryType: nat)
    requires Fits(lo, hi, es) && es != []
    ensures var gap := es[0].start > lo;
            var lo' := if gap then es[0].start else es[0].End();
            && Fits(lo', hi, es[1..])
            && Cut(lo, hi, es, memoryType)
            == [if gap then Filler(lo, es[0].start, es[0].memoryType) else es[0]] + Cut(lo', hi, es[1..], memoryType)
  {
    hide Filler;
    EndIsAligned(es[0]);
  }

  lemma StartsAt(lo: nat, hi: nat, es: seq<Descriptor>)
    requires Fits(lo, hi, es) && es != [] && FirstGap(lo, es) == |es|
    ensures es[0].start == lo
  {
  }

  lemma CutEnd(lo: nat, hi: nat, memoryType: nat)
    requires Fits(lo, hi, [])
    ensures Cut(lo, hi, [], memoryType) == if lo == hi then [] else [Filler(lo, hi, memoryType)]
  {
  }

  /** Without gaps the records are the entries themselves, and then what is left at the end. */
  lemma {:induction false} NoGapVerbatim(lo: nat, hi: nat, es: seq<Descriptor>, memoryType: nat)
    requires Fits(lo, hi, es) && FirstGap(lo, es) == |es|
    ensures Fits(LastEnd(lo, es), hi, [])
    ensures Cut(lo, hi, es, memoryType) == es + Cut(LastEnd(lo, es), hi, [], memoryType)
    decreases |es|
  {
    hide Cut, Fits, Filler;
    if es == [] {
      assert es + Cut(lo, hi, es, memoryType) == Cut(lo, hi, es, memoryType);
    } else {
      var next, rest := es[0].End(), es[1..];
      assert es[0].start == lo by { StartsAt(lo, hi, es); }
      CutStep(lo, hi, es, memoryType);
      NoGapVerbatim(next, hi, rest, memoryType);
      assert LastEnd(lo, es) == LastEnd(next, rest);
      var tail := Cut(LastEnd(lo, es), hi, [], memoryType);
      assert [es[0]] + (rest + tail) == ([es[0]] + rest) + tail;
      assert [es[0]] + rest == es;
    }
  }

  /**
   Record by record: each stands for one table entry and has its type, and is that entry unless it fills the gap
   before it; what is left at the end has the type of the region.
   */
  lemma {:induction false} RecordOf(lo: nat, hi: nat, es: seq<Descriptor>, memoryType: nat, k: nat)
    requires Fits(lo, hi, es) && k < |Cut(lo, hi, es, memoryType)|
    ensures |es| <= |Cut(lo, hi, es, memoryType)| <= |es| + 1
    ensures var d := Cut(lo, hi, es, memoryType)[k];
            && d.memoryType == (if k < |es| then es[k].memoryType else memoryType)
            && ((k < |es| && d == es[k]) || (d.virtualStart == 0 && d.attributes == 0x8000_0000_0000_0000))
    decreases |es|
  {
    hide Fits;
    if es == [] {
      CutEnd(lo, hi, memoryType);
    } else {
      CutStep(lo, hi, es, memoryType);
      var lo' := if es[0].start > lo then es[0].start else es[0].End();
      if k > 0 {
        RecordOf(lo', hi, es[1..], memoryType, k - 1);
      } else {
        CutLength(lo', hi, es[1..], memoryType);
      }
    }
  }

  lemma {:induction false} CutLength(lo: nat, hi: nat, es: seq<Descriptor>, memoryType: nat)
    requires Fits(lo, hi, es)
    ensures |es| <= |Cut(lo, hi, es, memoryType)| <= |es| + 1
    decreases |es|
  {
    hide Fits;
    if es == [] {
      CutEnd(lo, hi, memoryType);
    } else {
      CutStep(lo, hi, es, memoryType);
      CutLength(if es[0].start > lo then es[0].start else es[0].End(), hi, es[1..], memoryType);
    }
  }

  /** The attributes of the record that covers `x`. */
  function AttributesAt(rs: seq<Descriptor>, x: nat): nat {
    if rs == [] then 0 else if rs[0].Covers(x) then rs[0].attributes else AttributesAt(rs[1..], x)
  }

  /** Every address an entry describes keeps the attributes the entry gives it. */
  ghost predicate KeepsAttributes(rs: seq<Descriptor>, es: seq<Descriptor>) {
    forall i, x :: 0 <= i < |es| && es[i].Covers(x) ==> AttributesAt(rs, x) == es[i].attributes
  }

  /** From the first gap on, all entries have no attribute but RUNTIME. */
  predicate PlainAfterGap(lo: nat, es: seq<Descriptor>) {
    forall i :: FirstGap(lo, es) <= i < |es| ==> es[i].attributes == RUNTIME
  }

  predicate Detached(lo: nat, es: seq<Descriptor>) {
    forall i :: 0 <= i < |es| ==> es[i].start > lo
  }

  /** Once an entry has been passed over, so are all that follow. */
  lemma {:induction false} AfterGapAllPlain(lo: nat, hi: nat, es: seq<Descriptor>, memoryType: nat, x: nat)
    requires Fits(lo, hi, es) && Detached(lo, es) && lo <= x < hi
    ensures AttributesAt(Cut(lo, hi, es, memoryType), x) == RUNTIME
    decreases |es|
  {
    if es == [] {
      FillerFills(lo, hi, memoryType);
    } else {
      FillerFills(lo, es[0].start, es[0].memoryType);
      EndIsAligned(es[0]);
      if x >= es[0].start {
        AfterGapAllPlain(es[0].start, hi, es[1..], memoryType, x);
      }
    }
  }

  lemma KeepsAttributesAfterGap(lo: nat, hi: nat, es: seq<Descriptor>, memoryType: nat)
    requires Fits(lo, hi, es) && es != [] && es[0].start > lo
    ensures KeepsAttributes(Cut(lo, hi, es, memoryType), es) <==> PlainAfterGap(lo, es)
  {
    var rs := Cut(lo, hi, es, memoryType);
    forall i, x | 0 <= i < |es| && es[i].Covers(x) ensures AttributesAt(rs, x) == RUNTIME {
      AfterGapAllPlain(lo, hi, es, memoryType, x);
    }
    if KeepsAttributes(rs, es) {
      forall i | 0 <= i < |es| ensures es[i].attributes == RUNTIME {
        EndIsAligned(es[i]);
        var x := es[i].start;
        assert es[i].Covers(x);
        assert AttributesAt(rs, x) == RUNTIME;
      }
    }
  }

  /**
   The generated table keeps the attributes of all the firmware's entries exactly when there is
   no gap before an entry that has attributes worth keeping.
   */
  lemma {:induction false} AttributesKeptIff(lo: nat, hi: nat, es: seq<Descriptor>, memoryType: nat)
    requires Fits(lo, hi, es)
    ensures KeepsAttributes(Cut(lo, hi, es, memoryType), es) <==> PlainAfterGap(lo, es)
    decreases |es|
  {
    if es == [] {
    } else if es[0].start > lo {
      KeepsAttributesAfterGap(lo, hi, es, memoryType);
    } else {
      EndIsAligned(es[0]);
      AttributesKeptIff(es[0].End(), hi, es[1..], memoryType);
      VerbatimEntry(lo, hi, es, memoryType);
    }
  }

  lemma VerbatimEntry(lo: nat, hi: nat, es: seq<Descriptor>, memoryType: nat)
    requires Fits(lo, hi, es) && es != [] && es[0].start == lo && Fits(es[0].End(), hi, es[1..])
    ensures var rest := Cut(es[0].End(), hi, es[1..], memoryType);
            KeepsAttributes(Cut(lo, hi, es, memoryType), es) <==> KeepsAttributes(rest, es[1..])
    ensures PlainAfterGap(lo, es) <==> PlainAfterGap(es[0].End(), es[1..])
  {
    FrontEntry(es[0], Cut(es[0].End(), hi, es[1..], memoryType), es);
    var g := FirstGap(es[0].End(), es[1..]);
    assert forall i :: g + 1 <= i < |es| ==> es[i] == es[1..][i - 1];
    assert forall i :: g <= i < |es[1..]| ==> es[1..][i] == es[i + 1];
  }

  lemma FrontEntry(e: Descriptor, rest: seq<Descriptor>, es: seq<Descriptor>)
    requires es != [] && es[0] == e && Sorted(es)
    ensures KeepsAttributes([e] + rest, es) <==> KeepsAttributes(rest, es[1..])
  {
    var rs := [e] + rest;
    forall x | !e.Covers(x) ensures AttributesAt(rs, x) == AttributesAt(rest, x) {
      assert rs[1..] == rest;
    }
    forall i, x | 1 <= i < |es| && es[i].Covers(x) ensures !e.Covers(x) {
      assert es[0].End() <= es[i].start;
    }
    if KeepsAttributes(rest, es[1..]) {
      forall i, x | 0 <= i < |es| && es[i].Covers(x) ensures AttributesAt(rs, x) == es[i].attributes {
        if i > 0 {
          assert es[1..][i - 1] == es[i];
        }
      }
    }
    if KeepsAttributes(rs, es) {
      forall i, x | 0 <= i < |es[1..]| && es[1..][i].Covers(x) ensures AttributesAt(rest, x) == es[1..][i].attributes {
        assert es[1..][i] == es[i + 1];
      }
    }
  }

  /** A gap before a write-protected entry: the protection is lost. */
  lemma GapLosesProtection()
    ensures var e := Descriptor(5, 0x2000, 0, 1, RUNTIME + 0x1000);
            var rs := Cut(0x1000, 0x3000, [e], 5);
            e !in rs && AttributesAt(rs, 0x2000) == RUNTIME != e.attributes
  {
    var e := Descriptor(5, 0x2000, 0, 1, RUNTIME + 0x1000);
    assert Cut(0x2000, 0x3000, [e][1..], 5) == [Filler(0x2000, 0x3000, 5)];
  }

  // ----- Picking the entries of a region -----------------------------------------------------

  lemma {:induction false} SkipBelowIsSuffix(table: seq<Descriptor>, lo: nat) returns (k: nat)
    requires Sorted(table) && forall i :: 0 <= i < |table| ==> WellFormed(table[i])
    ensures k <= |table| && SkipBelow(table, lo) == table[k..]
    ensures forall i :: 0 <= i < k ==> table[i].start < lo
    ensures forall i :: k <= i < |table| ==> lo <= table[i].start
  {
    if table == [] {
      k := 0;
    } else if table[0].start < lo {
      var j := SkipBelowIsSuffix(table[1..], lo);
      k := j + 1;
      assert table[1..][j..] == table[k..];
      forall i | k <= i < |table| ensures lo <= table[i].start {
        assert table[i] == table[1..][i - 1];
      }
      forall i | 0 < i < k ensures table[i].start < lo {
        assert table[i] == table[1..][i - 1];
      }
    } else {
      k := 0;
      forall i | 0 <= i < |table| ensures lo <= table[i].start {
        EndIsAligned(table[0]);
      }
    }
  }

  lemma {:induction false} TakeBelowIsPrefix(table: seq<Descriptor>, hi: nat)
    requires Sorted(table) && forall i :: 0 <= i < |table| ==> WellFormed(table[i])
    ensures var t := TakeBelow(table, hi);
            && |t| <= |table| && t == table[..|t|]
            && (forall i :: 0 <= i < |t| ==> t[i].start < hi)
            && (forall i :: |t| <= i < |table| ==> hi <= table[i].start)
  {
    if table != [] && table[0].start < hi {
      TakeBelowIsPrefix(table[1..], hi);
      var t := TakeBelow(table, hi);
      forall i | |t| <= i < |table| ensures hi <= table[i].start {
        assert table[i] == table[1..][i - 1];
      }
    } else if table != [] {
      EndIsAligned(table[0]);
    }
  }

  /** For a sorted table, the entries picked are one stretch of it: all that start in the region. */
  lemma InsideIsStretch(table: seq<Descriptor>, r: Descriptor) returns (k: nat)
    requires Sorted(table) && forall i :: 0 <= i < |table| ==> WellFormed(table[i])
    ensures var n := |Inside(table, r)|;
            && k + n <= |table| && Inside(table, r) == table[k..k + n]
            && (forall i :: 0 <= i < |table| ==> (k <= i < k + n <==> r.start <= table[i].start < r.End()))
  {
    k := SkipBelowIsSuffix(table, r.start);
    var rest := table[k..];
    TakeBelowIsPrefix(rest, r.End());
    var n := |Inside(table, r)|;
    assert rest[..n] == table[k..k + n];
    forall i | 0 <= i < |table| ensures k <= i < k + n <==> r.start <= table[i].start < r.End() {
      if k <= i {
        assert rest[i - k] == table[i];
        if i < k + n {
          assert Inside(table, r)[i - k] == table[i];
        }
      }
    }
  }

  /** For conforming inputs they lie wholly inside it. */
  lemma InsideFits(map_: seq<Descriptor>, table: seq<Descriptor>, m: nat)
    requires Conforming(map_, table) && m < |map_|
    ensures Fits(map_[m].start, map_[m].End(), Inside(table, map_[m]))
    ensures forall i :: 0 <= i < |table| && map_[m].start <= table[i].start < map_[m].End() ==>
              table[i] in Inside(table, map_[m])
  {
    var r := map_[m];
    EndIsAligned(r);
    var k := InsideIsStretch(table, r);
    var es := Inside(table, r);
    forall i | 0 <= i < |es|
      ensures es[i] == table[k + i] && WellFormed(es[i]) && r.start <= es[i].start && es[i].End() <= r.End()
    {
      EntryStaysInside(map_, table, m, k + i);
    }
    assert Sorted(es);
    forall i | 0 <= i < |table| && r.start <= table[i].start < r.End() ensures table[i] in es {
      assert es[i - k] == table[i];
    }
  }

  lemma EntryStaysInside(map_: seq<Descriptor>, table: seq<Descriptor>, m: nat, i: nat)
    requires Conforming(map_, table) && m < |map_| && i < |table|
    requires map_[m].start <= table[i].start < map_[m].End()
    ensures table[i].End() <= map_[m].End()
  {
    var j :| 0 <= j < |map_| && Within(table[i], map_[j]);
    EndIsAligned(table[i]);
  }

  // ----- The generator -----------------------------------------------------------------------

  /** The records for one region of the memory map. */
  ghost function RegionRecords(map_: seq<Descriptor>, table: seq<Descriptor>, m: nat): seq<Descriptor>
    requires Conforming(map_, table) && m < |map_|
  {
    var r := map_[m];
    InsideFits(map_, table, m);
    if r.IsRuntime() then Cut(r.start, r.End(), Inside(table, r), r.memoryType) else []
  }

  /** The records for the first `n` regions. */
  ghost function AllRecords(map_: seq<Descriptor>, table: seq<Descriptor>, n: nat): seq<Descriptor>
    requires Conforming(map_, table) && n <= |map_|
  {
    if n == 0 then [] else AllRecords(map_, table, n - 1) + RegionRecords(map_, table, n - 1)
  }

  /** Each runtime region is tiled exactly, page for page. */
  lemma RegionTiled(map_: seq<Descriptor>, table: seq<Descriptor>, m: nat)
    requires Conforming(map_, table) && m < |map_|
    ensures var r := map_[m];
            && Fits(r.start, r.End(), Inside(table, r))
            && Tiles(Cut(r.start, r.End(), Inside(table, r), r.memoryType), r.start, r.End())
            && Pages(Cut(r.start, r.End(), Inside(table, r), r.memoryType)) == r.pages
  {
    hide Conforming, Cut, Inside, Tiles, Fits, Pages;
    var r := map_[m];
    InsideFits(map_, table, m);
    CutTiles(r.start, r.End(), Inside(table, r), r.memoryType);
    TilesConservePages(Cut(r.start, r.End(), Inside(table, r), r.memoryType), r.start, r.End());
  }

  function RuntimePages(map_: seq<Descriptor>, n: nat): nat
    requires n <= |map_|
  {
    if n == 0 then 0 else RuntimePages(map_, n - 1) + if map_[n - 1].IsRuntime() then map_[n - 1].pages else 0
  }

  lemma {:induction false} PagesOfConcat(rs: seq<Descriptor>, ts: seq<Descriptor>)
    ensures Pages(rs + ts) == Pages(rs) + Pages(ts)
  {
    if rs == [] {
      assert rs + ts == ts;
    } else {
      assert (rs + ts)[1..] == rs[1..] + ts;
      PagesOfConcat(rs[1..], ts);
    }
  }

  /** The generated table describes as many pages as the memory map's runtime regions have. */
  lemma {:induction false} RuntimePagesConserved(map_: seq<Descriptor>, table: seq<Descriptor>, n: nat)
    requires Conforming(map_, table) && n <= |map_|
    ensures Pages(AllRecords(map_, table, n)) == RuntimePages(map_, n)
  {
    hide Conforming, RegionRecords, Pages, Descriptor.IsRuntime;
    if n == 0 {
      NoPages(AllRecords(map_, table, n));
    } else {
      RuntimePagesConserved(map_, table, n - 1);
      RegionPages(map_, table, n - 1);
      PagesOfConcat(AllRecords(map_, table, n - 1), RegionRecords(map_, table, n - 1));
    }
  }

  lemma NoPages(rs: seq<Descriptor>)
    requires rs == []
    ensures Pages(rs) == 0
  {
  }

  lemma RegionPages(map_: seq<Descriptor>, table: seq<Descriptor>, m: nat)
    requires Conforming(map_, table) && m < |map_|
    ensures Pages(RegionRecords(map_, table, m)) == if map_[m].IsRuntime() then map_[m].pages else 0
  {
    hide Conforming, Pages, Cut, Inside, Descriptor.IsRuntime, Tiles, Fits;
    RegionTiled(map_, table, m);
    NoPages([]);
  }

  datatype Result = Table(entries: nat, used: nat, records: seq<Descriptor>) | BadBufferSize | BufferTooSmall

  /** The payload being filled: what has been written, and how many bytes are left. */
  class Payload {
    var records: seq<Descriptor>
    var tail: nat

    constructor (tail: nat)
      ensures records == [] && this.tail == tail
    {
      records, this.tail := [], tail;
    }

    method Write(d: Descriptor) returns (ok: bool)
      modifies this
      ensures ok <==> old(tail) >= DESCRIPTOR_SIZE
      ensures ok ==> records == old(records) + [d] && tail == old(tail) - DESCRIPTOR_SIZE
      ensures !ok ==> records == old(records) && tail == old(tail)
    {
      if tail < DESCRIPTOR_SIZE {
        return false;
      }
      records := records + [d];
      tail := tail - DESCRIPTOR_SIZE;
      return true;
    }
  }

  method SkipEntriesBelow(table: seq<Descriptor>, lo: nat) returns (k: nat)
    ensures k <= |table| && table[k..] == SkipBelow(table, lo)
  {
    k := 0;
    while k < |table| && table[k].start < lo
      invariant k <= |table|
      invariant SkipBelow(table[k..], lo) == SkipBelow(table, lo)
    {
      assert table[k..][1..] == table[k + 1..];
      k := k + 1;
    }
  }

  /** The body of the inner loop: one table entry, with `size` bytes of the region left from `base` on. */
  method CutEntry(payload: Payload, base: nat, size: nat, e: Descriptor) returns (ok: bool, base': nat, size': nat)
    requires WellFormed(e) && base <= e.start && e.End() <= base + size
    modifies payload
    ensures base' + size' == base + size
    ensures base' == if e.start > base then e.start else e.End()
    ensures ok <==> old(payload.tail) >= DESCRIPTOR_SIZE
    ensures ok ==>
      payload.records == old(payload.records) + [if e.start > base then Filler(base, e.start, e.memoryType) else e]
    ensures ok ==> payload.tail == old(payload.tail) - DESCRIPTOR_SIZE
  {
    if e.start > base {
      ok := payload.Write(Descriptor(e.memoryType, base, 0, (e.start - base) / PAGE_SIZE, RUNTIME));
      size' := size - (e.start - base);
      base' := e.start;
    } else {
      ok := payload.Write(e);
      base' := base + e.pages * PAGE_SIZE;
      size' := size - e.pages * PAGE_SIZE;
    }
  }

  /** The body of the outer loop: one runtime region. */
  method CutRegion(payload: Payload, table: seq<Descriptor>, r: Descriptor) returns (ok: bool)
    requires Fits(r.start, r.End(), Inside(table, r))
    modifies payload
    ensures var rs := Cut(r.start, r.End(), Inside(table, r), r.memoryType);
            if ok then
              payload.records == old(payload.records) + rs && payload.tail == old(payload.tail) - DESCRIPTOR_SIZE * |rs|
            else old(payload.tail) < DESCRIPTOR_SIZE * |rs|
  {
    hide Cut, Fits, Filler, TakeBelow, SkipBelow;
    var base: nat, size: nat := r.start, r.pages * PAGE_SIZE;
    ghost var hi := r.End();
    ghost var all := payload.records + Cut(r.start, hi, Inside(table, r), r.memoryType);
    var k := SkipEntriesBelow(table, r.start);
    ghost var left := Inside(table, r);
    while k < |table| && table[k].start < r.End()
      invariant k <= |table| && base + size == hi
      invariant left == TakeBelow(table[k..], hi) && Fits(base, hi, left)
      invariant all == payload.records + Cut(base, hi, left, r.memoryType)
      invariant payload.tail + DESCRIPTOR_SIZE * |payload.records| ==
                old(payload.tail + DESCRIPTOR_SIZE * |payload.records|)
    {
      TakeStep(table, k, hi);
      CutStep(base, hi, left, r.memoryType);
      FirstFits(base, hi, left);
      ghost var before := payload.records;
      ok, base, size := CutEntry(payload, base, size, table[k]);
      if !ok {
        return;
      }
      left := left[1..];
      Reassociate(before, payload.records, Cut(base, hi, left, r.memoryType));
      k := k + 1;
    }
    TakeStep(table, k, hi);
    CutEnd(base, hi, r.memoryType);
    ok := true;
    if size != 0 {
      FillerIs(base, hi, r.memoryType);
      ok := payload.Write(Descriptor(r.memoryType, base, 0, size / PAGE_SIZE, RUNTIME));
    }
  }

  lemma FillerIs(lo: nat, hi: nat, memoryType: nat)
    requires lo <= hi
    ensures Filler(lo, hi, memoryType) == Descriptor(memoryType, lo, 0, (hi - lo) / PAGE_SIZE, RUNTIME)
  {
  }

  lemma FirstFits(lo: nat, hi: nat, es: seq<Descriptor>)
    requires Fits(lo, hi, es) && es != []
    ensures WellFormed(es[0]) && lo <= es[0].start && es[0].End() <= hi
  {
  }

  /** The next entry of the table is the next that starts in the region, or there is none. */
  lemma TakeStep(table: seq<Descriptor>, k: nat, hi: nat)
    requires k <= |table|
    ensures TakeBelow(table[k..], hi) ==
            if k < |table| && table[k].start < hi then [table[k]] + TakeBelow(table[k + 1..], hi) else []
  {
    if k < |table| {
      assert table[k..][0] == table[k] && table[k..][1..] == table[k + 1..];
    }
  }

  lemma Reassociate(before: seq<Descriptor>, after: seq<Descriptor>, rest: seq<Descriptor>)
    requires |after| == |before| + 1 && after[..|before|] == before
    ensures before + ([after[|before|]] + rest) == after + rest
  {
  }

  lemma {:induction false} AllRecordsGrow(map_: seq<Descriptor>, table: seq<Descriptor>, n: nat, m: nat)
    requires Conforming(map_, table) && n <= m <= |map_|
    ensures |AllRecords(map_, table, n)| <= |AllRecords(map_, table, m)|
    decreases m
  {
    hide Conforming, RegionRecords;
    if n < m {
      AllRecordsGrow(map_, table, n, m - 1);
    }
  }

  lemma NoRecords(map_: seq<Descriptor>, table: seq<Descriptor>)
    requires Conforming(map_, table)
    ensures AllRecords(map_, table, 0) == []
  {
  }

  lemma RecordsStep(map_: seq<Descriptor>, table: seq<Descriptor>, i: nat)
    requires Conforming(map_, table) && i < |map_|
    ensures var r := map_[i];
      && Fits(r.start, r.End(), Inside(table, r))
      && AllRecords(map_, table, i + 1) ==
         AllRecords(map_, table, i) +
         if r.IsRuntime() then Cut(r.start, r.End(), Inside(table, r), r.memoryType) else []
  {
    hide Conforming, Cut, Inside, Fits;
    InsideFits(map_, table, i);
  }

  /** Succeeds exactly when the payload has room for everything, and then its header counts the records. */
  method Generate(map_: seq<Descriptor>, table: seq<Descriptor>, payloadSize: nat) returns (r: Result)
    requires Conforming(map_, table) && |AllRecords(map_, table, |map_|)| < 0x1_0000_0000
    ensures var all := AllRecords(map_, table, |map_|);
            r == if payloadSize < 16 then BadBufferSize
                 else if payloadSize < 16 + 40 * |all| then BufferTooSmall
                 else Table(|all|, 16 + 40 * |all|, all)
  {
    hide Conforming, RegionRecords, AllRecords;
    if payloadSize < HEADER_SIZE {
      return BadBufferSize;
    }
    var payload := new Payload(payloadSize - HEADER_SIZE);
    NoRecords(map_, table);
    for i := 0 to |map_|
      invariant payload.records == AllRecords(map_, table, i)
      invariant payload.tail == payloadSize - HEADER_SIZE - DESCRIPTOR_SIZE * |payload.records|
    {
      RecordsStep(map_, table, i);
      AllRecordsGrow(map_, table, i + 1, |map_|);
      if map_[i].IsRuntime() {
        var ok := CutRegion(payload, table, map_[i]);
        if !ok {
          return BufferTooSmall;
        }
      }
    }
    var used := payloadSize - payload.tail;
    return Table(used / DESCRIPTOR_SIZE, used, payload.records);
  }
}
