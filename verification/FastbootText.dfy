/** The text of fastboot commands: splitting, numbers and arguments. */
module FastbootText {
  import opened Basics
  import opened Numbers
  import opened Utf8

  const NUL := '\0'

  const U64_LIMIT := 0x1_0000_0000_0000_0000

  function Split(s: Bytes, c: char): (parts: seq<Bytes>)
    ensures parts != []
  {
    if s == [] then [[]]
    else
      var rest := Split(s[1..], c);
      if s[0] == c then [[]] + rest else [[s[0]] + rest[0]] + rest[1..]
  }

  function HexDigit(c: char): Option<nat> {
    if '0' <= c <= '9' then Some(c as nat - '0' as nat)
    else if 'a' <= c <= 'f' then Some(c as nat - 'a' as nat + 10)
    else if 'A' <= c <= 'F' then Some(c as nat - 'A' as nat + 10)
    else None
  }

  function HexDigits(s: Bytes): Option<nat>
    decreases |s|
  {
    if s == [] then Some(0) else
    var init, digit := HexDigits(s[..|s| - 1]), HexDigit(s[|s| - 1]);
    if init.None? || digit.None? then None else Some(16 * init.value + digit.value)
  }

  function StripPrefix(s: Bytes, prefix: Bytes): Option<Bytes> {
    if prefix <= s then Some(s[|prefix|..]) else None
  }

  /** An optional `0x`, an optional sign, at least one digit, and a value that fits. */
  function HexToU64(s: Bytes): Option<nat> {
    var s := if StripPrefix(s, "0x").Some? then s[2..] else s;
    var s := if |s| > 1 && s[0] == '+' then s[1..] else s;
    var v := HexDigits(s);
    if s == [] || v.None? || v.value >= U64_LIMIT then None else v
  }

  function NonEmpty(parts: seq<Bytes>, i: int): Option<Bytes> {
    if 0 <= i < |parts| && parts[i] != [] then Some(parts[i]) else None
  }

  datatype FetchArgs = FetchArgs(part: Bytes, offset: nat, size: nat)

  /** Read from the right, so that a partition name may contain colons. */
  function ParseFetch(text: Bytes): Option<FetchArgs> {
    var args := Split(text, ':')[1..];
    var cmd := StripPrefix(text, "fetch:");
    if cmd.None? || |args| < 3 then None else
    var sz, off := NonEmpty(args, |args| - 1), NonEmpty(args, |args| - 2);
    if sz.None? || off.None? then None else
    SplitLength(text, ':');
    LastPartsFit(text);
    var part := cmd.value[..|cmd.value| - (|off.value| + |sz.value| + 2)];
    var offset, size := HexToU64(off.value), HexToU64(sz.value);
    if offset.None? || size.None? then None else Some(FetchArgs(part, offset.value, size.value))
  }

  function TotalLength(parts: seq<Bytes>): nat {
    if parts == [] then 0 else |parts[0]| + TotalLength(parts[1..])
  }

  lemma SplitLength(s: Bytes, c: char)
    ensures |s| == TotalLength(Split(s, c)) + |Split(s, c)| - 1
  {
  }

  lemma {:induction false} LastTwo(parts: seq<Bytes>)
    requires |parts| >= 2
    ensures TotalLength(parts) >= |parts[|parts| - 1]| + |parts[|parts| - 2]|
  {
    if |parts| > 2 {
      LastTwo(parts[1..]);
    }
  }

  /** Text before the first separator is the first part. */
  lemma {:induction false} SplitFirst(a: Bytes, c: char, rest: Bytes)
    requires c !in a
    ensures Split(a + [c] + rest, c) == [a] + Split(rest, c)
  {
    var s := a + [c] + rest;
    if a == [] {
      assert s[1..] == rest;
    } else {
      assert s[1..] == a[1..] + [c] + rest;
      assert [a[0]] + a[1..] == a;
      SplitFirst(a[1..], c, rest);
    }
  }

  lemma LastPartsFit(text: Bytes)
    requires "fetch:" <= text && |Split(text, ':')| >= 4
    ensures var parts := Split(text, ':');
            |text| - 6 >= |parts[|parts| - 1]| + |parts[|parts| - 2]| + 2
  {
    var parts := Split(text, ':');
    assert text == "fetch" + [':'] + text[6..];
    SplitFirst("fetch", ':', text[6..]);
    SplitLength(text[6..], ':');
    LastTwo(Split(text[6..], ':'));
  }

  function DownloadSize(text: Bytes): (size: Option<nat>)
    ensures size.Some? ==> size.value < U64_LIMIT
  {
    var arg := NonEmpty(Split(text, ':')[1..], 0);
    if arg.None? then None else HexToU64(arg.value)
  }

  /** The text up to the first NUL, split at colons; the variable is the second part. */
  function VariableName(text: Bytes): Option<Bytes> {
    var parts := Split(UpTo(text, NUL), ':');
    if |parts| < 2 then None else Some(parts[1])
  }

  function UpTo(s: Bytes, c: char): Bytes {
    if s == [] || s[0] == c then [] else [s[0]] + UpTo(s[1..], c)
  }

  lemma {:induction false} SplitLast(s: Bytes, c: char, b: Bytes)
    requires c !in b
    ensures Split(s + [c] + b, c) == Split(s, c) + [b]
  {
    var whole := s + [c] + b;
    if s == [] {
      assert whole[1..] == b;
      SplitPlain(b, c);
    } else {
      assert whole[1..] == s[1..] + [c] + b;
      SplitLast(s[1..], c, b);
    }
  }

  lemma {:induction false} SplitPlain(s: Bytes, c: char)
    requires c !in s
    ensures Split(s, c) == [s]
  {
    if s != [] {
      SplitPlain(s[1..], c);
      assert [s[0]] + s[1..] == s;
    }
  }

  lemma FetchParts(part: Bytes, off: Bytes, size: Bytes)
    requires ':' !in off && ':' !in size
    ensures Split("fetch:" + part + ":" + off + ":" + size, ':') == ["fetch"] + Split(part, ':') + [off] + [size]
  {
    hide Split;
    var tail := part + [':'] + off + [':'] + size;
    FetchText(part, off, size);
    SplitFirst("fetch", ':', tail);
    SplitLast(part + [':'] + off, ':', size);
    SplitLast(part, ':', off);
  }

  lemma FetchText(part: Bytes, off: Bytes, size: Bytes)
    ensures "fetch:" + part + ":" + off + ":" + size == "fetch" + [':'] + (part + [':'] + off + [':'] + size)
  {
  }

  /** Any partition name, colons and all, comes back out of a fetch command. */
  lemma FetchRoundTrip(part: Bytes, off: Bytes, size: Bytes)
    requires off != [] && size != [] && ':' !in off && ':' !in size
    requires HexToU64(off).Some? && HexToU64(size).Some?
    ensures ParseFetch("fetch:" + part + ":" + off + ":" + size)
         == Some(FetchArgs(part, HexToU64(off).value, HexToU64(size).value))
  {
    hide Split, HexToU64;
    FetchParts(part, off, size);
    var text := "fetch:" + part + ":" + off + ":" + size;
    var cmd := text[6..];
    assert cmd == part + ":" + off + ":" + size;
    assert cmd[..|cmd| - (|off| + |size| + 2)] == part;
  }

  // ----- Splitting and joining -----------------------------------------------------------------

  function Join(parts: seq<Bytes>, c: char): Bytes
    requires parts != []
  {
    if |parts| == 1 then parts[0] else parts[0] + [c] + Join(parts[1..], c)
  }

  predicate NoneIn(parts: seq<Bytes>, c: char) {
    forall i :: 0 <= i < |parts| ==> c !in parts[i]
  }

  lemma {:induction false} JoinSplit(s: Bytes, c: char)
    ensures Join(Split(s, c), c) == s && NoneIn(Split(s, c), c)
  {
    if s != [] {
      var rest := Split(s[1..], c);
      JoinSplit(s[1..], c);
      assert s == [s[0]] + s[1..];
      if s[0] == c {
        assert ([[]] + rest)[1..] == rest;
      } else {
        var first := [s[0]] + rest[0];
        assert ([first] + rest[1..])[1..] == rest[1..];
        if |rest| > 1 {
          assert first + [c] + Join(rest[1..], c) == [s[0]] + (rest[0] + [c] + Join(rest[1..], c));
        }
      }
    }
  }

  lemma {:induction false} SplitJoin(parts: seq<Bytes>, c: char)
    requires parts != [] && NoneIn(parts, c)
    ensures Split(Join(parts, c), c) == parts
  {
    if |parts| == 1 {
      SplitPlain(parts[0], c);
    } else {
      SplitJoin(parts[1..], c);
      SplitFirst(parts[0], c, Join(parts[1..], c));
    }
  }

  /** The parts of a text are those without the separator that make up the text. */
  lemma SplitIff(s: Bytes, c: char, parts: seq<Bytes>)
    requires parts != []
    ensures Split(s, c) == parts <==> NoneIn(parts, c) && s == Join(parts, c)
  {
    JoinSplit(s, c);
    if NoneIn(parts, c) {
      SplitJoin(parts, c);
    }
  }

  lemma {:induction false} JoinSnoc(parts: seq<Bytes>, p: Bytes, c: char)
    requires parts != []
    ensures Join(parts + [p], c) == Join(parts, c) + [c] + p
  {
    assert (parts + [p])[1..] == parts[1..] + [p];
    if |parts| > 1 {
      JoinSnoc(parts[1..], p, c);
      assert parts[0] + [c] + (Join(parts[1..], c) + [c] + p) == parts[0] + [c] + Join(parts[1..], c) + [c] + p;
    }
  }

  lemma {:induction false} UpToIff(s: Bytes, c: char, n: Bytes)
    requires c !in n
    ensures UpTo(s, c) == n <==> s == n || n + [c] <= s
  {
    if s == [] || s[0] == c {
      assert n == [] ==> n + [c] == [c];
    } else if n != [] {
      UpToIff(s[1..], c, n[1..]);
      assert n == [n[0]] + n[1..] && s == [s[0]] + s[1..];
      if n + [c] <= s {
        assert n[1..] + [c] == (n + [c])[1..] == s[..|n| + 1][1..] == s[1..][..|n|];
      }
      if s[0] == n[0] && n[1..] + [c] <= s[1..] {
        assert n + [c] == [n[0]] + (n[1..] + [c]);
      }
    }
  }

  lemma {:induction false} FirstPart(s: Bytes, c: char)
    ensures Split(s, c)[0] == UpTo(s, c)
  {
    if s != [] && s[0] != c {
      FirstPart(s[1..], c);
    }
  }

  lemma {:induction false} UpToPast(p: Bytes, s: Bytes, c: char)
    requires c !in p
    ensures UpTo(p + s, c) == p + UpTo(s, c)
  {
    if p == [] {
      assert p + s == s;
    } else {
      assert (p + s)[1..] == p[1..] + s;
      UpToPast(p[1..], s, c);
      assert [p[0]] + (p[1..] + UpTo(s, c)) == p + UpTo(s, c);
    }
  }

  lemma {:induction false} UpToIsPrefix(s: Bytes, c: char)
    ensures UpTo(s, c) <= s && c !in UpTo(s, c)
  {
    if s != [] && s[0] != c {
      UpToIsPrefix(s[1..], c);
    }
  }

  // ----- Numbers ---------------------------------------------------------------------------------

  lemma {:induction false} HexIsValue(s: Bytes)
    ensures HexDigits(s).Some? <==> AllDigits(s, 16)
    ensures HexDigits(s).Some? ==> HexDigits(s).value == Value(s, 16)
    decreases |s|
  {
    if s != [] {
      HexIsValue(s[..|s| - 1]);
      HexIsWeight(s[|s| - 1]);
      assert s == s[..|s| - 1] + [s[|s| - 1]];
    }
  }

  lemma HexIsWeight(c: char)
    ensures HexDigit(c).Some? <==> IsDigit(c, 16)
    ensures HexDigit(c).Some? ==> HexDigit(c).value == Weight(c, 16)
  {
  }

  /** Digits, with a sign and a prefix or without. */
  predicate HexForm(s: Bytes, ds: Bytes) {
    ds != [] && AllDigits(ds, 16) && (s == ds || s == "+" + ds || s == "0x" + ds || s == "0x+" + ds)
  }

  /** A text is read as the number that its digits denote in base 16, if it has that form and the number fits. */
  lemma HexToU64Iff(s: Bytes, v: nat)
    ensures HexToU64(s) == Some(v) <==> v < U64_LIMIT && exists ds :: HexForm(s, ds) && Value(ds, 16) == v
  {
    hide HexDigits, Value, Weight;
    var s1 := if StripPrefix(s, "0x").Some? then s[2..] else s;
    var s2 := if |s1| > 1 && s1[0] == '+' then s1[1..] else s1;
    HexIsValue(s2);
    HexStripped(s, s1, s2);
    if HexToU64(s) == Some(v) {
      assert HexForm(s, s2);
    }
  }

  lemma HexStripped(s: Bytes, s1: Bytes, s2: Bytes)
    requires s1 == if StripPrefix(s, "0x").Some? then s[2..] else s
    requires s2 == if |s1| > 1 && s1[0] == '+' then s1[1..] else s1
    ensures s2 != [] && AllDigits(s2, 16) ==> HexForm(s, s2)
    ensures forall ds :: HexForm(s, ds) ==> ds == s2
  {
    assert s1 == s || s == "0x" + s1;
    assert s2 == s1 || s1 == "+" + s2;
    assert !IsDigit('+', 16) && !IsDigit('x', 16);
    if s1 != s && s2 != s1 {
      assert s == "0x+" + s2;
    }
    forall ds | HexForm(s, ds) ensures ds == s2 {
      assert IsDigit(ds[0], 16) && (|ds| > 1 ==> IsDigit(ds[1], 16));
      if s == ds {
        assert s1 == s;
      } else if s == "+" + ds {
        assert s[0] == '+' && s[1..] == ds;
      } else if s == "0x" + ds {
        assert s1 == s[2..] == ds;
      } else {
        assert s1 == s[2..] == "+" + ds;
      }
    }
  }

  function Zeros(k: nat): Bytes {
    seq(k, _ => '0')
  }

  /** A number printed in hexadecimal, with leading zeros and a prefix or without, is read back. */
  lemma {:induction false} HexReadsPrinted(k: nat, v: nat)
    requires v < U64_LIMIT
    ensures HexToU64(Zeros(k) + Render(v, 16)) == Some(v) && HexToU64("0x" + (Zeros(k) + Render(v, 16))) == Some(v)
  {
    hide HexToU64, Render, Value, Weight;
    var ds := Zeros(k) + Render(v, 16);
    PaddedValue(k, v);
    assert HexForm(ds, ds) && HexForm("0x" + ds, ds);
    HexToU64Iff(ds, v);
    HexToU64Iff("0x" + ds, v);
  }

  lemma {:induction false} PaddedValue(k: nat, v: nat)
    ensures var ds := Zeros(k) + Render(v, 16); ds != [] && AllDigits(ds, 16) && Value(ds, 16) == v
  {
    if k == 0 {
      RenderedForm(v, 16);
      assert Zeros(0) + Render(v, 16) == Render(v, 16);
    } else {
      PaddedValue(k - 1, v);
      var ds := Zeros(k - 1) + Render(v, 16);
      assert Zeros(k) + Render(v, 16) == "0" + ds;
      LeadingZero(ds, 16);
      assert IsDigit('0', 16);
    }
  }
}
