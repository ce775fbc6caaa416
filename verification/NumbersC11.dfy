/** `strtoul` as section 7.22.1.4 of C11 defines it, and exactly when the program's is the same. */
module NumbersC11 {
  import opened Basics
  import opened Numbers

  const VERTICAL_TAB := '\U{0B}'

  /** White space in the C locale. */
  predicate IsSpaceC(c: char) {
    IsSpace(c) || c == VERTICAL_TAB
  }

  function SkipSpaceC(s: string, p: nat): (q: nat)
    requires p <= |s|
    ensures p <= q <= |s| && (q < |s| ==> !IsSpaceC(s[q]))
    decreases |s| - p
  {
    if p < |s| && IsSpaceC(s[p]) then SkipSpaceC(s, p + 1) else p
  }

  /** Where the digits of the subject sequence start, and their base; a prefix counts only before a digit. */
  function Subject(s: string, q: nat, base: nat): (r: (nat, nat))
    requires q <= |s| && (base == 0 || IsBase(base))
    ensures q <= r.0 <= |s| && IsBase(r.1)
  {
    if (base == 16 || base == 0) && HasHexPrefix(s, q) && q + 2 < |s| && IsDigit(s[q + 2], 16) then (q + 2, 16)
    else (q, if base != 0 then base else if q < |s| && s[q] == '0' then 8 else 10)
  }

  /** The number that starts at a place, if one does. */
  function Conversion(s: string, p: nat, base: nat): Option<Reading>
    requires p <= |s| && (base == 0 || IsBase(base))
  {
    var (start, b) := Subject(s, AfterSign(s, p), base);
    var end := SkipDigits(s, start, b);
    if end == start then None else Some(Number(Clamp(Value(s[start..end], b), Negative(s, p)), end))
  }

  /** Without a conversion the result is 0, and the end is the start. */
  function StrtoulC11(s: string, base: nat): Reading
    requires base == 0 || IsBase(base)
  {
    var r := Conversion(s, SkipSpaceC(s, 0), base);
    if r.Some? then r.value else Number(0, 0)
  }

  /** A digit follows, perhaps behind a sign. */
  predicate NumberAt(s: string, p: nat, base: nat)
    requires p <= |s| && (base == 0 || IsBase(base))
  {
    var q := AfterSign(s, p);
    q < |s| && IsDigit(s[q], if base == 0 then 10 else base)
  }

  /** A prefix without a digit behind it. */
  predicate BarePrefix(s: string, q: nat, base: nat) {
    (base == 16 || base == 0) && HasHexPrefix(s, q) && !(q + 2 < |s| && IsDigit(s[q + 2], 16))
  }

  /** The texts on which the program goes its own way. */
  predicate Deviates(s: string, base: nat)
    requires base == 0 || IsBase(base)
  {
    var p := SkipSpace(s, 0);
    if s == "" then base == 16 || base == 0
    else if p < |s| && s[p] == VERTICAL_TAB then p > 0 || NumberAt(s, SkipSpaceC(s, 0), base)
    else if !NumberAt(s, p, base) then AfterSign(s, p) > 0
    else BarePrefix(s, AfterSign(s, p), base)
  }

  lemma {:induction false} SkipSpaceStops(s: string, p: nat)
    requires p <= |s|
    ensures var q := SkipSpace(s, p); q < |s| ==> !IsSpace(s[q])
    ensures var q := SkipSpace(s, p); SkipSpaceC(s, p) == SkipSpaceC(s, q)
    decreases |s| - p
  {
    if p < |s| && IsSpace(s[p]) {
      SkipSpaceStops(s, p + 1);
    }
  }

  lemma DigitKinds(c: char)
    ensures IsDigit(c, 8) ==> IsDigit(c, 10)
    ensures c == '0' ==> IsDigit(c, 8) && IsDigit(c, 10) && IsDigit(c, 16)
    ensures IsDigit(c, 10) ==> IsDigit(c, 16)
    ensures c == VERTICAL_TAB || c == 'x' || c == 'X' ==> !IsDigit(c, 16) && !IsDigit(c, 10) && !IsDigit(c, 8)
  {
  }

  /** Without a digit the program gives 0, at the place where it looked for one. */
  lemma NothingRead(s: string, p: nat, base: nat)
    requires p <= |s| && (base == 0 || IsBase(base)) && !NumberAt(s, p, base)
    ensures ReadFrom(s, p, base) == Number(0, AfterSign(s, p)) && Conversion(s, p, base) == None
  {
    hide Value, IsDigit;
    var q := AfterSign(s, p);
    if q < |s| {
      DigitKinds(s[q]);
    }
    EmptyValue(8);
    EmptyValue(10);
    EmptyValue(16);
    assert s[q..q] == "";
  }

  /** A prefix without a digit is taken by the program, where only its zero is a number. */
  lemma BarePrefixRead(s: string, p: nat, base: nat)
    requires p <= |s| && (base == 0 || IsBase(base)) && BarePrefix(s, AfterSign(s, p), base)
    ensures ReadFrom(s, p, base).end == AfterSign(s, p) + 2
    ensures Conversion(s, p, base).Some? && Conversion(s, p, base).value.end == AfterSign(s, p) + 1
  {
    hide Value, IsDigit, Clamp;
    var q := AfterSign(s, p);
    DigitKinds(s[q]);
    DigitKinds(s[q + 1]);
    if base == 16 {
      SkipDigitsIs(s, q, 16, q + 1);
    } else {
      SkipDigitsIs(s, q, 8, q + 1);
    }
    SkipDigitsIs(s, q + 2, 16, q + 2);
  }

  /** Otherwise both read the same number; in octal, C counts the leading zero as a digit. */
  lemma SameRead(s: string, p: nat, base: nat)
    requires p <= |s| && (base == 0 || IsBase(base))
    requires NumberAt(s, p, base) && !BarePrefix(s, AfterSign(s, p), base)
    ensures Conversion(s, p, base) == Some(ReadFrom(s, p, base))
  {
    hide Value, IsDigit, Clamp;
    var q := AfterSign(s, p);
    DigitKinds(s[q]);
    var (start, b) := Prefix(s, q, base);
    var end := SkipDigits(s, start, b);
    if start == q + 1 {
      assert end == SkipDigits(s, q, 8);
      assert s[q..end] == "0" + s[q + 1..end];
      LeadingZero(s[q + 1..end], 8);
    }
  }

  /** The program's `strtoul` gives the value and the end that C11 defines exactly when the text is none of those. */
  lemma MatchesC11Iff(s: string, base: nat)
    requires base == 0 || IsBase(base)
    ensures Strtoul(s, base) == StrtoulC11(s, base) <==> !Deviates(s, base)
  {
    hide ReadFrom, Conversion, IsDigit, HasHexPrefix, IsSpace;
    var p := SkipSpace(s, 0);
    SkipSpaceStops(s, 0);
    if s == "" {
      NothingRead(s, 0, base);
    } else if p < |s| && s[p] == VERTICAL_TAB {
      DigitKinds(s[p]);
      NothingRead(s, p, base);
      TabSkipped(s, p, base);
    } else {
      NoMoreSpace(s, p);
      if !NumberAt(s, p, base) {
        NothingRead(s, p, base);
      } else if BarePrefix(s, AfterSign(s, p), base) {
        BarePrefixRead(s, p, base);
      } else {
        SameRead(s, p, base);
      }
    }
  }

  lemma NoMoreSpace(s: string, p: nat)
    requires p <= |s| && (p < |s| ==> !IsSpace(s[p]) && s[p] != VERTICAL_TAB)
    ensures SkipSpaceC(s, p) == p
  {
  }

  /** Behind a vertical tab C goes on, and ends later. */
  lemma TabSkipped(s: string, p: nat, base: nat)
    requires p < |s| && s[p] == VERTICAL_TAB && (base == 0 || IsBase(base))
    ensures var c := SkipSpaceC(s, p);
      && c > p
      && (NumberAt(s, c, base) <==> Conversion(s, c, base).Some?)
      && (Conversion(s, c, base).Some? ==> Conversion(s, c, base).value.Number? && Conversion(s, c, base).value.end > p)
  {
    hide Value, IsDigit, Clamp;
    var c := SkipSpaceC(s, p);
    assert c == SkipSpaceC(s, p + 1);
    if !NumberAt(s, c, base) {
      NothingRead(s, c, base);
    } else if BarePrefix(s, AfterSign(s, c), base) {
      BarePrefixRead(s, c, base);
    } else {
      Converts(s, c, base);
    }
  }

  lemma Converts(s: string, p: nat, base: nat)
    requires p <= |s| && (base == 0 || IsBase(base))
    requires NumberAt(s, p, base) && !BarePrefix(s, AfterSign(s, p), base)
    ensures Conversion(s, p, base).Some?
  {
    hide Value, IsDigit, Clamp;
    DigitKinds(s[AfterSign(s, p)]);
    SameRead(s, p, base);
  }

  /** One text of each kind. */
  lemma Deviations()
    ensures Strtoul("", 16) == Strtoul("", 0) == Panic && StrtoulC11("", 16) == StrtoulC11("", 0) == Number(0, 0)
    ensures Deviates("0x", 16) && Deviates(" +", 10) && Deviates("\U{0B}1", 10)
    ensures Strtoul("0x", 16) != StrtoulC11("0x", 16)
  {
    var bare, sign, tab := "0x", " +", "\U{0B}1";
    SkipSpaceIs(bare, 0, 0);
    SkipSpaceIs(sign, 0, 1);
    SkipSpaceIs(tab, 0, 0);
    NoMoreSpace(tab, 1);
    assert SkipSpaceC(tab, 0) == SkipSpaceC(tab, 1);
    MatchesC11Iff(bare, 16);
  }
}
