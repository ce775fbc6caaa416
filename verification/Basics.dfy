/** What several components share. */
module Basics {

  datatype Option<+T> = None | Some(value: T)

  function Min(a: nat, b: nat): nat { if a < b then a else b }

  function Max(a: nat, b: nat): nat { if a < b then b else a }

  function Reversed<T>(s: seq<T>): (r: seq<T>)
    ensures |r| == |s|
  {
    seq(|s|, i requires 0 <= i < |s| => s[|s| - 1 - i])
  }

  lemma ReversedSnoc<T>(s: seq<T>, x: T)
    ensures Reversed(s + [x]) == [x] + Reversed(s)
  {
  }

  lemma FromTheBack<T>(s: seq<T>, k: nat)
    requires k < |s|
    ensures Reversed(s)[k] == s[|s| - 1 - k]
  {
  }

  /** A text with another one written over it from a place on. */
  function Spliced<T>(s: seq<T>, at: nat, part: seq<T>): (r: seq<T>)
    requires at + |part| <= |s|
    ensures |r| == |s|
  {
    s[..at] + part + s[at + |part|..]
  }

  lemma SplicedReads<T>(s: seq<T>, at: nat, part: seq<T>)
    requires at + |part| <= |s|
    ensures Spliced(s, at, part)[..at] == s[..at] && Spliced(s, at, part)[at..at + |part|] == part
    ensures Spliced(s, at, part)[..at + |part|] == s[..at] + part
  {
  }

  lemma SplicedSame<T>(s: seq<T>, at: nat, n: nat)
    requires at + n <= |s|
    ensures Spliced(s, at, s[at..at + n]) == s
  {
  }

  lemma SplicedOver<T>(s: seq<T>, at: nat, a: seq<T>, b: seq<T>)
    requires |a| <= |b| && at + |b| <= |s|
    ensures Spliced(Spliced(s, at, a), at, b) == Spliced(s, at, b)
  {
    var t := Spliced(s, at, a);
    assert t[..at] == s[..at];
    assert t[at + |b|..] == s[at + |b|..] by {
      forall i | at + |b| <= i < |s| ensures t[i] == s[i] {
      }
    }
  }

  lemma SplicedBehind<T>(s: seq<T>, at: nat, a: seq<T>, b: seq<T>)
    requires at + |a| + |b| <= |s|
    ensures Spliced(Spliced(s, at, a), at + |a|, b) == Spliced(s, at, a + b)
  {
    var t := Spliced(s, at, a);
    SplicedReads(s, at, a);
    assert t[at + |a| + |b|..] == s[at + |a| + |b|..] by {
      forall i | at + |a| + |b| <= i < |s| ensures t[i] == s[i] {
      }
    }
    assert s[..at] + a + b == s[..at] + (a + b);
  }

  lemma SplicedAfter<T>(s: seq<T>, at: nat, n: nat, b: seq<T>)
    requires at + n + |b| <= |s|
    ensures Spliced(s, at + n, b) == Spliced(s, at, s[at..at + n] + b)
  {
    SplicedSame(s, at, n);
    SplicedBehind(s, at, s[at..at + n], b);
  }

  lemma SplicedNone<T>(s: seq<T>, at: nat, part: seq<T>)
    requires at <= |s| && part == []
    ensures Spliced(s, at, part) == s
  {
  }

  lemma SplicedNext<T>(s: seq<T>, at: nat, part: seq<T>, k: nat)
    requires k < |part| && at + k < |s|
    ensures Spliced(s, at, part[..k])[at + k := part[k]] == Spliced(s, at, part[..k + 1])
  {
    assert part[..k + 1] == part[..k] + [part[k]];
  }

  function Concat<T>(parts: seq<seq<T>>): seq<T> {
    if parts == [] then [] else parts[0] + Concat(parts[1..])
  }

  lemma {:induction false} ConcatSnoc<T>(parts: seq<seq<T>>, part: seq<T>)
    ensures Concat(parts + [part]) == Concat(parts) + part
  {
    if parts == [] {
      assert parts + [part] == [part];
      assert [part][1..] == [];
    } else {
      assert (parts + [part])[1..] == parts[1..] + [part];
      ConcatSnoc(parts[1..], part);
    }
  }

  lemma {:induction false} ConcatSplit<T>(parts: seq<seq<T>>, k: nat)
    requires k <= |parts|
    ensures Concat(parts) == Concat(parts[..k]) + Concat(parts[k..])
    decreases k
  {
    if k == 0 {
      assert parts[0..] == parts && parts[..0] == [];
    } else {
      ConcatSplit(parts, k - 1);
      assert parts[..k] == parts[..k - 1] + [parts[k - 1]];
      ConcatSnoc(parts[..k - 1], parts[k - 1]);
      assert parts[k - 1..][1..] == parts[k..];
    }
  }
}
