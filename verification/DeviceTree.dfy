/** The registry of device tree components, which keeps aligned copies of them in a scratch buffer. */
module DeviceTree {
  import opened Basics
  import opened ByteOrder

  datatype Result<+T> = Ok(value: T) | Err

  const MAXIMUM_COMPONENTS: nat := 256
  const FDT_ALIGNMENT: nat := 8
  const FDT_HEADER_SIZE: nat := 40

  datatype Source = Boot | VendorBoot | Dtb | Dtbo

  /** The metadata of an entry of a device tree table. */
  datatype Metadata = Metadata(id: nat, rev: nat, custom: seq<nat>)

  /** Where a component's tree is: in memory of the caller, or in the scratch buffer. */
  datatype Place = Given(bytes: seq<byte>) | Scratch(at: nat, size: nat)

  datatype Component = Component(source: Source, metadata: Option<Metadata>, dt: Place, selected: bool) {
    predicate IsBase() {
      !source.Dtbo?
    }
  }

  /** The next aligned place of a buffer that starts at the address `base`. */
  function Align(base: nat, pos: nat): (at: nat)
    ensures pos <= at < pos + FDT_ALIGNMENT && (base + at) % FDT_ALIGNMENT == 0
  {
    var x := base + pos + FDT_ALIGNMENT - 1;
    x - x % FDT_ALIGNMENT - base
  }

  /** The bytes at a place. */
  function Bytes(m: seq<byte>, p: Place): Option<seq<byte>> {
    match p
    case Given(bytes) => Some(bytes)
    case Scratch(at, size) => if at + size <= |m| then Some(m[at..at + size]) else None
  }

  // ----- What the registry keeps ---------------------------------------------------------------

  /** The tree is as it was given; a copy lies aligned before `pos`. */
  predicate Kept(m: seq<byte>, base: nat, pos: nat, p: Place, tree: seq<byte>) {
    && Bytes(m, p) == Some(tree)
    && (p.Scratch? ==> p.at + p.size <= pos && (base + p.at) % FDT_ALIGNMENT == 0)
  }

  /** The first lies before the second, if both are copies. */
  predicate Before(p: Place, q: Place) {
    p.Scratch? && q.Scratch? ==> p.at + p.size <= q.at
  }

  /** The components hold these trees, in this order, in places that do not overlap. */
  predicate Holds(m: seq<byte>, base: nat, pos: nat, cs: seq<Component>, trees: seq<seq<byte>>) {
    && |cs| == |trees| && pos <= |m|
    && (forall i :: 0 <= i < |cs| ==> Kept(m, base, pos, cs[i].dt, trees[i]))
    && (forall i, j :: 0 <= i < j < |cs| ==> Before(cs[i].dt, cs[j].dt))
  }

  /** Writing behind `pos` changes no tree. */
  lemma HoldsStill(m: seq<byte>, m': seq<byte>, base: nat, pos: nat, cs: seq<Component>, trees: seq<seq<byte>>)
    requires Holds(m, base, pos, cs, trees) && |m'| == |m| && m'[..pos] == m[..pos]
    ensures Holds(m', base, pos, cs, trees)
  {
    forall i | 0 <= i < |cs| ensures Kept(m', base, pos, cs[i].dt, trees[i]) {
      var p := cs[i].dt;
      assert Kept(m, base, pos, p, trees[i]);
      if p.Scratch? {
        assert m'[p.at..p.at + p.size] == m'[..pos][p.at..p.at + p.size];
        assert m[p.at..p.at + p.size] == m[..pos][p.at..p.at + p.size];
      }
    }
  }

  lemma HoldsMore(m: seq<byte>, base: nat, pos: nat, next: nat, cs: seq<Component>, trees: seq<seq<byte>>,
                  c: Component, tree: seq<byte>)
    requires Holds(m, base, pos, cs, trees) && pos <= next <= |m|
    requires Kept(m, base, next, c.dt, tree) && (c.dt.Scratch? ==> pos <= c.dt.at)
    ensures Holds(m, base, next, cs + [c], trees + [tree])
  {
    forall i | 0 <= i < |cs| ensures Kept(m, base, next, cs[i].dt, trees[i]) && Before(cs[i].dt, c.dt) {
      assert Kept(m, base, pos, cs[i].dt, trees[i]);
    }
  }

  // ----- Placing -------------------------------------------------------------------------------

  /** Where trees of these sizes end, placed one after the other, each aligned; none if they do not fit. */
  function Placed(base: nat, n: nat, pos: nat, trees: seq<seq<byte>>): Option<nat>
    decreases |trees|
  {
    if trees == [] then Some(pos)
    else
      var end := Align(base, pos) + |trees[0]|;
      if end <= n then Placed(base, n, end, trees[1..]) else None
  }

  lemma {:induction false} PlacedSnoc(base: nat, n: nat, pos: nat, trees: seq<seq<byte>>, tree: seq<byte>)
    ensures var r := Placed(base, n, pos, trees);
            Placed(base, n, pos, trees + [tree]) ==
            if r.None? then None else Placed(base, n, r.value, [tree])
    decreases |trees|
  {
    if trees == [] {
      assert [] + [tree] == [tree];
    } else {
      assert (trees + [tree])[1..] == trees[1..] + [tree];
      var end := Align(base, pos) + |trees[0]|;
      if end <= n {
        PlacedSnoc(base, n, end, trees[1..], tree);
      }
    }
  }

  lemma {:induction false} PlacedPrefix(base: nat, n: nat, pos: nat, trees: seq<seq<byte>>, k: nat)
    requires k <= |trees| && Placed(base, n, pos, trees[..k]).None?
    ensures Placed(base, n, pos, trees).None?
    decreases |trees|
  {
    if k > 0 {
      assert trees[..k][1..] == trees[1..][..k - 1];
      var end := Align(base, pos) + |trees[0]|;
      if end <= n {
        PlacedPrefix(base, n, end, trees[1..], k - 1);
      }
    }
  }

  // ----- Trees in a row --------------------------------------------------------------------------

  /** The header check of libfdt: the total size of the tree with this header, if it is one. */
  type HeaderCheck = seq<byte> -> Option<nat>

  /** A tree is at least as large as its header. */
  ghost predicate Sensible(check: HeaderCheck) {
    forall h :: |h| == FDT_HEADER_SIZE && check(h).Some? ==> check(h).value >= FDT_HEADER_SIZE
  }

  /** The size of the tree at the start of the data. */
  function TreeSize(check: HeaderCheck, data: seq<byte>): Option<nat> {
    if |data| < FDT_HEADER_SIZE then None else check(data[..FDT_HEADER_SIZE])
  }

  /** A complete tree. */
  predicate IsTree(check: HeaderCheck, tree: seq<byte>) {
    TreeSize(check, tree) == Some(|tree|)
  }

  /** A tree cut from the data is a complete one. */
  lemma CutIsTree(check: HeaderCheck, data: seq<byte>, size: nat)
    requires Sensible(check) && TreeSize(check, data) == Some(size) && size <= |data|
    ensures size >= FDT_HEADER_SIZE && IsTree(check, data[..size])
  {
    assert check(data[..FDT_HEADER_SIZE]).value >= FDT_HEADER_SIZE;
    assert data[..size][..FDT_HEADER_SIZE] == data[..FDT_HEADER_SIZE];
  }

  /** A registry and the scratch buffer, at address `base`, that it cuts copies from. */
  class Registry {
    const scratch: array<byte>
    const base: nat
    const check: HeaderCheck
    var components: seq<Component>
    ghost var trees: seq<seq<byte>>

    /** What is before `pos` in the scratch buffer is used, the rest is free. */
    ghost predicate Valid(pos: nat)
      reads this, scratch
    {
      Sensible(check) && |components| <= MAXIMUM_COMPONENTS && Holds(scratch[..], base, pos, components, trees)
    }

    constructor (scratch: array<byte>, base: nat, check: HeaderCheck)
      requires Sensible(check)
      ensures this.scratch == scratch && this.base == base && this.check == check
      ensures Valid(0) && components == [] && trees == []
    {
      this.scratch := scratch;
      this.base := base;
      this.check := check;
      components := [];
      trees := [];
    }

    /** Copies a tree to the next aligned place and registers the copy. */
    method Push(source: Source, metadata: Option<Metadata>, tree: seq<byte>, pos: nat) returns (end: nat)
      requires Valid(pos) && |components| < MAXIMUM_COMPONENTS && Align(base, pos) + |tree| <= scratch.Length
      modifies this, scratch
      ensures end == Align(base, pos) + |tree| && Valid(end)
      ensures trees == old(trees) + [tree]
      ensures components == old(components) + [Component(source, metadata, Scratch(Align(base, pos), |tree|), false)]
    {
      hide Holds, Kept;
      var at := Align(base, pos);
      end := at + |tree|;
      var c := Component(source, metadata, Scratch(at, |tree|), false);
      Write(at, tree);
      assert Kept(scratch[..], base, end, c.dt, tree) by { IsKept(scratch[..], base, end, at, tree); }
      HoldsStill(old(scratch[..]), scratch[..], base, pos, components, trees);
      HoldsMore(scratch[..], base, pos, end, components, trees, c, tree);
      components := components + [c];
      trees := trees + [tree];
    }

    method Write(at: nat, bytes: seq<byte>)
      requires at + |bytes| <= scratch.Length
      modifies scratch
      ensures scratch[..at] == old(scratch[..at]) && scratch[at..at + |bytes|] == bytes
      ensures forall pos :: 0 <= pos <= at ==> scratch[..][..pos] == old(scratch[..])[..pos]
    {
      forall i | 0 <= i < |bytes| {
        scratch[at + i] := bytes[i];
      }
    }

    /** Registers copies of all entries of a table, in their order. */
    method AppendFromDttable(source: Source, entries: seq<(Metadata, seq<byte>)>, pos: nat) returns (r: Result<nat>)
      requires Valid(pos)
      modifies this, scratch
      ensures r.Ok? <==>
        |old(components)| + |entries| <= MAXIMUM_COMPONENTS && Placed(base, scratch.Length, pos, Trees(entries)).Some?
      ensures r.Ok? ==> Valid(r.value) && Placed(base, scratch.Length, pos, Trees(entries)) == Some(r.value)
      ensures r.Ok? ==> trees == old(trees) + Trees(entries)
      ensures r.Ok? ==> Registered(old(components), components, source, entries)
      ensures r.Err? ==>
        exists k, end :: 0 <= k <= |entries| && Valid(end) && trees == old(trees) + Trees(entries[..k])
          && Registered(old(components), components, source, entries[..k])
    {
      hide Holds, Placed, Registered;
      if |entries| > MAXIMUM_COMPONENTS - |components| {
        assert Trees(entries[..0]) == [];
        RegisteredNone(components, source, entries[..0]);
        assert Valid(pos) && trees == old(trees) + Trees(entries[..0]);
        return Err;
      }
      var remains := pos;
      ghost var before := components;
      PlacedNone(base, scratch.Length, pos, Trees(entries[..0]));
      RegisteredNone(before, source, entries[..0]);
      for i := 0 to |entries|
        invariant Valid(remains) && |components| == |before| + i
        invariant trees == old(trees) + Trees(entries[..i])
        invariant Registered(before, components, source, entries[..i])
        invariant Placed(base, scratch.Length, pos, Trees(entries[..i])) == Some(remains)
      {
        var (metadata, tree) := entries[i];
        TreesSnoc(entries, i);
        PlacedSnoc(base, scratch.Length, pos, Trees(entries[..i]), tree);
        PlacedOne(base, scratch.Length, remains, tree);
        if Align(base, remains) + |tree| > scratch.Length {
          PlacedPrefix(base, scratch.Length, pos, Trees(entries), i + 1);
          return Err;
        }
        ghost var at := Align(base, remains);
        RegisteredSnoc(before, components, source, entries, i, Scratch(at, |tree|));
        remains := Push(source, Some(metadata), tree, remains);
      }
      assert entries[..|entries|] == entries;
      return Ok(remains);
    }

    /** Copies the header to an aligned place, behind all trees, to find out how large the tree is. */
    method PeekSize(data: seq<byte>, pos: nat) returns (size: Option<nat>)
      requires Valid(pos)
      modifies scratch
      ensures Valid(pos)
      ensures size == if Align(base, pos) + FDT_HEADER_SIZE <= scratch.Length then TreeSize(check, data) else None
    {
      hide Holds;
      var at := Align(base, pos);
      if at + FDT_HEADER_SIZE > scratch.Length || |data| < FDT_HEADER_SIZE {
        return None;
      }
      var header := data[..FDT_HEADER_SIZE];
      Write(at, header);
      HoldsStill(old(scratch[..]), scratch[..], base, pos, components, trees);
      return check(header);
    }

    /**
     * Registers copies of the trees that stand one after the other in the data: all of them up to where no
     * header is found, or where there is no room for the copy of a header.
     */
    method AppendFromMultifdtBuffer(source: Source, data: seq<byte>, pos: nat)
      returns (r: Result<nat>, ghost added: seq<seq<byte>>, ghost rest: seq<byte>, ghost end: nat)
      requires Valid(pos)
      modifies this, scratch
      ensures Valid(end) && Placed(base, scratch.Length, pos, added) == Some(end)
      ensures trees == old(trees) + added && Concat(added) + rest == data
      ensures forall t :: t in added ==> IsTree(check, t)
      ensures Plain(old(components), components, source, |added|)
      ensures r == if Room(rest, end).None? then Ok(end) else Err
      ensures r.Err? ==>
        |components| == MAXIMUM_COMPONENTS || Room(rest, end).value > |rest|
        || Align(base, end) + Room(rest, end).value > scratch.Length
    {
      hide Holds, Placed, Concat, IsTree, Plain;
      added, rest, end := [], data, pos;
      var dataRemains, remains := data, pos;
      ghost var before := components;
      PlacedNone(base, scratch.Length, pos, added);
      PlainNone(components, source);
      ConcatNone(data);
      while true
        invariant Valid(remains) && end == remains && rest == dataRemains
        invariant trees == old(trees) + added && Concat(added) + rest == data
        invariant forall t :: t in added ==> IsTree(check, t)
        invariant Placed(base, scratch.Length, pos, added) == Some(end)
        invariant Plain(before, components, source, |added|)
        decreases |dataRemains|
      {
        var size := PeekSize(dataRemains, remains);
        if size.None? {
          return Ok(remains), added, rest, end;
        }
        if |components| == MAXIMUM_COMPONENTS {
          return Err, added, rest, end;
        }
        if size.value > |dataRemains| {
          return Err, added, rest, end;
        }
        if Align(base, remains) + size.value > scratch.Length {
          return Err, added, rest, end;
        }
        var tree := dataRemains[..size.value];
        CutIsTree(check, dataRemains, size.value);
        ConcatSnoc(added, tree);
        assert dataRemains == tree + dataRemains[size.value..];
        assert Concat(added) + tree + dataRemains[size.value..] == Concat(added) + dataRemains;
        PlacedSnoc(base, scratch.Length, pos, added, tree);
        PlacedOne(base, scratch.Length, remains, tree);
        PlainSnoc(before, components, source, |added|, Scratch(Align(base, remains), |tree|));
        remains := Push(source, None, tree, remains);
        dataRemains := dataRemains[size.value..];
        added, rest, end := added + [tree], dataRemains, remains;
      }
    }

    /** The size of the next tree, if there is room to look at its header. */
    ghost function Room(data: seq<byte>, pos: nat): Option<nat> {
      if Align(base, pos) + FDT_HEADER_SIZE <= scratch.Length then TreeSize(check, data) else None
    }

    /** Registers a tree where it is, and copies of those that follow it. */
    method Append(source: Source, fdt: seq<byte>, pos: nat)
      returns (r: Result<nat>, ghost added: seq<seq<byte>>, ghost rest: seq<byte>, ghost end: nat)
      requires Valid(pos)
      requires |components| < MAXIMUM_COMPONENTS && TreeSize(check, fdt).Some? ==> TreeSize(check, fdt).value <= |fdt|
      modifies this, scratch
      ensures Valid(end) && trees == old(trees) + added && Concat(added) + rest == fdt
      ensures forall t :: t in added ==> IsTree(check, t)
      ensures Plain(old(components), components, source, |added|)
      ensures |old(components)| == MAXIMUM_COMPONENTS || TreeSize(check, fdt).None? ==> r.Err? && added == []
      ensures |old(components)| < MAXIMUM_COMPONENTS && TreeSize(check, fdt).Some? ==> added != []
      ensures added != [] ==> r == if Room(rest, end).None? then Ok(end) else Err
      ensures added != [] && r.Err? ==>
        |components| == MAXIMUM_COMPONENTS || Room(rest, end).value > |rest|
        || Align(base, end) + Room(rest, end).value > scratch.Length
      ensures added != [] ==> components[|old(components)|].dt == Given(added[0])
    {
      hide Holds, Placed, Concat, IsTree, Plain;
      added, rest, end := [], fdt, pos;
      PlainNone(components, source);
      ConcatNone(fdt);
      if |components| == MAXIMUM_COMPONENTS {
        return Err, added, rest, end;
      }
      var size := if |fdt| < FDT_HEADER_SIZE then None else check(fdt[..FDT_HEADER_SIZE]);
      if size.None? {
        return Err, added, rest, end;
      }
      var tree, remains := fdt[..size.value], fdt[size.value..];
      CutIsTree(check, fdt, size.value);
      ghost var before := components;
      var c := Component(source, None, Given(tree), false);
      PlainSnoc(before, before, source, 0, c.dt);
      PushGiven(c, tree, pos);
      ghost var more: seq<seq<byte>>;
      r, more, rest, end := AppendFromMultifdtBuffer(source, remains, pos);
      PlainJoin(before, before + [c], components, source, 1, |more|);
      added := [tree] + more;
      ConcatCons(tree, more, rest);
      assert fdt == tree + remains;
      assert old(trees) + [tree] + more == old(trees) + added;
    }

    /** Selects the only base tree; fails, and selects nothing, when there is none or more than one. */
    method Autoselect(ghost pos: nat) returns (r: Result<()>)
      requires Valid(pos)
      modifies this`components
      ensures Valid(pos)
      ensures r.Ok? <==> |Filter(old(components), IsBase)| == 1
      ensures r.Err? ==> components == old(components)
      ensures r.Ok? ==>
        var i := First(old(components), IsBase);
        i < |old(components)| && components == old(components)[i := old(components)[i].(selected := true)]
    {
      FirstFilter(components, IsBase);
      if |Filter(components, IsBase)| > 1 {
        return Err;
      }
      var i := First(components, IsBase);
      if i == |components| {
        return Err;
      }
      HoldsSelected(scratch[..], base, pos, components, trees, i);
      components := components[i := components[i].(selected := true)];
      return Ok(());
    }

    /** The selected base tree and the selected overlays. */
    method Selected() returns (r: Result<(Place, seq<Place>)>)
      ensures r == Selection(components)
    {
      FirstFilter(components, IsSelectedBase);
      if |Filter(components, IsSelectedBase)| > 1 {
        return Err;
      }
      var i := First(components, IsSelectedBase);
      if i == |components| {
        return Err;
      }
      return Ok((components[i].dt, Places(Filter(components, IsSelectedOverlay))));
    }

    method PushGiven(c: Component, ghost tree: seq<byte>, ghost pos: nat)
      requires Valid(pos) && |components| < MAXIMUM_COMPONENTS && c.dt == Given(tree)
      modifies this
      ensures Valid(pos) && components == old(components) + [c] && trees == old(trees) + [tree]
    {
      HoldsMore(scratch[..], base, pos, pos, components, trees, c, tree);
      components := components + [c];
      trees := trees + [tree];
    }
  }

  lemma ConcatNone(data: seq<byte>)
    ensures Concat([]) + data == data
  {
  }

  lemma ConcatCons(tree: seq<byte>, more: seq<seq<byte>>, rest: seq<byte>)
    ensures Concat([tree] + more) + rest == tree + (Concat(more) + rest)
  {
    assert ([tree] + more)[1..] == more;
  }

  lemma RegisteredNone(cs: seq<Component>, source: Source, entries: seq<(Metadata, seq<byte>)>)
    requires entries == []
    ensures Registered(cs, cs, source, entries)
  {
  }

  lemma RegisteredSnoc(before: seq<Component>, after: seq<Component>, source: Source,
                       entries: seq<(Metadata, seq<byte>)>, i: nat, dt: Place)
    requires i < |entries| && Registered(before, after, source, entries[..i])
    ensures Registered(before, after + [Component(source, Some(entries[i].0), dt, false)], source, entries[..i + 1])
  {
  }

  /** A number of components was added, without metadata and not selected. */
  ghost predicate Plain(before: seq<Component>, after: seq<Component>, source: Source, n: nat) {
    && |after| == |before| + n && before <= after
    && forall i :: |before| <= i < |after| ==>
         after[i].source == source && after[i].metadata == None && !after[i].selected
  }

  lemma PlainNone(cs: seq<Component>, source: Source)
    ensures Plain(cs, cs, source, 0)
  {
  }

  lemma PlainSnoc(before: seq<Component>, after: seq<Component>, source: Source, n: nat, dt: Place)
    requires Plain(before, after, source, n)
    ensures Plain(before, after + [Component(source, None, dt, false)], source, n + 1)
  {
  }

  lemma PlainJoin(a: seq<Component>, b: seq<Component>, c: seq<Component>, source: Source, n: nat, k: nat)
    requires Plain(a, b, source, n) && Plain(b, c, source, k)
    ensures Plain(a, c, source, n + k) && b <= c
  {
    forall i | |a| <= i < |c| ensures c[i].source == source && c[i].metadata == None && !c[i].selected {
      if i < |b| {
        assert c[i] == b[i];
      }
    }
  }

  lemma IsKept(m: seq<byte>, base: nat, end: nat, at: nat, tree: seq<byte>)
    requires at + |tree| == end <= |m| && m[at..end] == tree && (base + at) % FDT_ALIGNMENT == 0
    ensures Kept(m, base, end, Scratch(at, |tree|), tree)
  {
  }

  function Trees(entries: seq<(Metadata, seq<byte>)>): (ts: seq<seq<byte>>)
    ensures |ts| == |entries|
  {
    seq(|entries|, i requires 0 <= i < |entries| => entries[i].1)
  }

  lemma TreesSnoc(entries: seq<(Metadata, seq<byte>)>, i: nat)
    requires i < |entries|
    ensures Trees(entries[..i + 1]) == Trees(entries[..i]) + [entries[i].1]
    ensures Trees(entries)[..i + 1] == Trees(entries[..i + 1])
  {
  }

  lemma PlacedNone(base: nat, n: nat, pos: nat, trees: seq<seq<byte>>)
    requires trees == []
    ensures Placed(base, n, pos, trees) == Some(pos)
  {
  }

  lemma PlacedOne(base: nat, n: nat, pos: nat, tree: seq<byte>)
    ensures var end := Align(base, pos) + |tree|; Placed(base, n, pos, [tree]) == if end <= n then Some(end) else None
  {
    assert [tree][1..] == [];
  }

  /** What an append of a table adds: a component for every entry, with its metadata, not selected. */
  ghost predicate Registered(before: seq<Component>, after: seq<Component>, source: Source,
                             entries: seq<(Metadata, seq<byte>)>)
  {
    && |after| == |before| + |entries| && before <= after
    && forall i :: 0 <= i < |entries| ==>
         RegisteredAs(after[|before| + i], source, entries[i].0)
  }

  predicate RegisteredAs(c: Component, source: Source, metadata: Metadata) {
    c.source == source && c.metadata == Some(metadata) && !c.selected
  }

  // ----- Selecting -------------------------------------------------------------------------------

  predicate IsBase(c: Component) { c.IsBase() }

  predicate IsSelectedBase(c: Component) { c.IsBase() && c.selected }

  predicate IsSelectedOverlay(c: Component) { !c.IsBase() && c.selected }

  function Filter(cs: seq<Component>, f: Component -> bool): seq<Component> {
    if cs == [] then [] else (if f(cs[0]) then [cs[0]] else []) + Filter(cs[1..], f)
  }

  /** The first that satisfies the predicate, or the end. */
  function First(cs: seq<Component>, f: Component -> bool): (i: nat)
    ensures i <= |cs| && (i < |cs| ==> f(cs[i])) && forall j :: 0 <= j < i ==> !f(cs[j])
  {
    if cs == [] || f(cs[0]) then 0 else 1 + First(cs[1..], f)
  }

  function Places(cs: seq<Component>): seq<Place> {
    seq(|cs|, i requires 0 <= i < |cs| => cs[i].dt)
  }

  /** One selected base tree, with the selected overlays; an error for none or more. */
  function Selection(cs: seq<Component>): Result<(Place, seq<Place>)> {
    var bases := Filter(cs, IsSelectedBase);
    if |bases| != 1 then Err else Ok((bases[0].dt, Places(Filter(cs, IsSelectedOverlay))))
  }

  lemma {:induction false} FirstFilter(cs: seq<Component>, f: Component -> bool)
    ensures First(cs, f) == |cs| <==> Filter(cs, f) == []
    ensures First(cs, f) < |cs| ==> Filter(cs, f)[0] == cs[First(cs, f)]
  {
    if cs != [] && !f(cs[0]) {
      FirstFilter(cs[1..], f);
      assert [] + Filter(cs[1..], f) == Filter(cs[1..], f);
    }
  }

  lemma {:induction false} FilterNone(cs: seq<Component>, f: Component -> bool)
    requires forall j :: 0 <= j < |cs| ==> !f(cs[j])
    ensures Filter(cs, f) == []
  {
    if cs != [] {
      FilterNone(cs[1..], f);
    }
  }

  lemma {:induction false} FilterOnly(cs: seq<Component>, f: Component -> bool, i: nat)
    requires i < |cs| && f(cs[i]) && forall j :: 0 <= j < |cs| && j != i ==> !f(cs[j])
    ensures Filter(cs, f) == [cs[i]]
  {
    if i == 0 {
      FilterNone(cs[1..], f);
    } else {
      FilterOnly(cs[1..], f, i - 1);
    }
  }

  lemma {:induction false} OnlyOne(cs: seq<Component>, f: Component -> bool, i: nat)
    requires |Filter(cs, f)| == 1 && i == First(cs, f)
    ensures i < |cs| && forall j :: 0 <= j < |cs| && j != i ==> !f(cs[j])
  {
    if f(cs[0]) {
      FirstFilter(cs[1..], f);
      forall j | 0 < j < |cs| ensures !f(cs[j]) {
        assert cs[j] == cs[1..][j - 1];
      }
    } else {
      assert [] + Filter(cs[1..], f) == Filter(cs[1..], f);
      OnlyOne(cs[1..], f, i - 1);
      forall j | 0 <= j < |cs| && j != i ensures !f(cs[j]) {
        if j > 0 {
          assert cs[j] == cs[1..][j - 1];
        }
      }
    }
  }

  lemma {:induction false} FilterUpdate(cs: seq<Component>, f: Component -> bool, i: nat, c: Component)
    requires i < |cs| && !f(cs[i]) && !f(c)
    ensures Filter(cs[i := c], f) == Filter(cs, f)
  {
    var u := cs[i := c];
    if i == 0 {
      assert u[1..] == cs[1..];
    } else {
      assert u[1..] == cs[1..][i - 1 := c];
      FilterUpdate(cs[1..], f, i - 1, c);
    }
  }

  /** After a successful automatic selection the only base tree is found, with the overlays selected before. */
  lemma AutoselectSelects(cs: seq<Component>)
    requires |Filter(cs, IsBase)| == 1
    ensures var i := First(cs, IsBase);
      && i < |cs|
      && Selection(cs[i := cs[i].(selected := true)]) == Ok((cs[i].dt, Places(Filter(cs, IsSelectedOverlay))))
      && ((forall c :: c in cs ==> !c.selected) ==> Filter(cs, IsSelectedOverlay) == [])
  {
    var i := First(cs, IsBase);
    OnlyOne(cs, IsBase, i);
    var c := cs[i].(selected := true);
    FilterOnly(cs[i := c], IsSelectedBase, i);
    FilterUpdate(cs, IsSelectedOverlay, i, c);
    if forall c :: c in cs ==> !c.selected {
      FilterNone(cs, IsSelectedOverlay);
    }
  }

  // ----- What is selected, place by place ------------------------------------------------------

  /** Component `i` is the only selected one that is not an overlay. */
  predicate OnlyBase(cs: seq<Component>, i: nat) {
    && i < |cs| && cs[i].selected && cs[i].source != Dtbo
    && forall j :: 0 <= j < |cs| && j != i ==> !(cs[j].selected && cs[j].source != Dtbo)
  }

  /** How many overlays are selected. */
  function OverlayCount(cs: seq<Component>): nat {
    if cs == [] then 0 else (if cs[0].selected && cs[0].source == Dtbo then 1 else 0) + OverlayCount(cs[1..])
  }

  /** Each selected overlay is in the place that the number of those before it gives. */
  lemma {:induction false} OverlayAt(cs: seq<Component>, i: nat)
    requires i < |cs| && cs[i].selected && cs[i].source == Dtbo
    ensures OverlayCount(cs[..i]) < |Filter(cs, IsSelectedOverlay)|
    ensures Filter(cs, IsSelectedOverlay)[OverlayCount(cs[..i])] == cs[i]
  {
    if i == 0 {
      assert cs[..0] == [];
    } else {
      OverlayAt(cs[1..], i - 1);
      assert cs[..i][1..] == cs[1..][..i - 1] && cs[..i][0] == cs[0];
    }
  }

  lemma {:induction false} OverlaysCounted(cs: seq<Component>)
    ensures |Filter(cs, IsSelectedOverlay)| == OverlayCount(cs)
  {
    if cs != [] {
      OverlaysCounted(cs[1..]);
    }
  }

  /** A selection succeeds if and only if there is exactly one base tree in it, and gives that and all overlays. */
  lemma SelectionMeans(cs: seq<Component>)
    ensures Selection(cs).Ok? <==> exists i: nat :: OnlyBase(cs, i)
    ensures forall i: nat :: OnlyBase(cs, i) && Selection(cs).Ok? ==> Selection(cs).value.0 == cs[i].dt
    ensures Selection(cs).Ok? ==> |Selection(cs).value.1| == OverlayCount(cs)
  {
    if Selection(cs).Ok? {
      var i := First(cs, IsSelectedBase);
      OnlyOne(cs, IsSelectedBase, i);
      assert OnlyBase(cs, i);
      OverlaysCounted(cs);
    }
    forall i: nat | OnlyBase(cs, i) ensures Selection(cs).Ok? && Selection(cs).value.0 == cs[i].dt {
      FilterOnly(cs, IsSelectedBase, i);
    }
  }

  /** The overlays are given in order. */
  lemma SelectedOverlay(cs: seq<Component>, i: nat)
    requires Selection(cs).Ok? && i < |cs| && cs[i].selected && cs[i].source == Dtbo
    ensures OverlayCount(cs[..i]) < |Selection(cs).value.1|
    ensures Selection(cs).value.1[OverlayCount(cs[..i])] == cs[i].dt
  {
    OverlayAt(cs, i);
  }

  lemma HoldsSelected(m: seq<byte>, base: nat, pos: nat, cs: seq<Component>, trees: seq<seq<byte>>, i: nat)
    requires Holds(m, base, pos, cs, trees) && i < |cs|
    ensures Holds(m, base, pos, cs[i := cs[i].(selected := true)], trees)
  {
    var u := cs[i := cs[i].(selected := true)];
    assert forall j :: 0 <= j < |cs| ==> u[j].dt == cs[j].dt;
  }
}
