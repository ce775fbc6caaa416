/** Printing numbers, and `strtoul` (section 7.22.1.4 of C11), which reads them. */
module Numbers {

  const TWO64: nat := 0x1_0000_0000_0000_0000

  const MAX_DIGITS: nat := 20

  predicate IsBase(base: nat) {
    base == 8 || base == 10 || base == 16
  }

  // ----- Digits ------------------------------------------------------------------------------

  /** What a digit counts; the base itself for any other character. */
  function Weight(c: char, base: nat): (w: nat)
    requires IsBase(base)
    ensures w <= base
  {
    var w :=
      if '0' <= c <= '9' then c as int - '0' as int
      else if 'a' <= c <= 'f' then c as int - 'a' as int + 10
      else if 'A' <= c <= 'F' then c as int - 'A' as int + 10
      else 16;
    if w < base then w else base
  }

  predicate IsDigit(c: char, base: nat)
    requires IsBase(base)
  {
    Weight(c, base) < base
  }

  predicate AllDigits(s: string, base: nat)
    requires IsBase(base)
  {
    forall i :: 0 <= i < |s| ==> IsDigit(s[i], base)
  }

  /** The number that digits denote. */
  function Value(s: string, base: nat): nat
    requires IsBase(base)
  {
    if s == "" then 0 else Value(s[..|s| - 1], base) * base + Weight(s[|s| - 1], base)
  }

  /** A zero in front does not count. */
  lemma {:induction false} LeadingZero(s: string, base: nat)
    requires IsBase(base)
    ensures Value("0" + s, base) == Value(s, base)
  {
    var t := "0" + s;
    if s == "" {
      assert t[..0] == "";
    } else {
      assert t[..|s|] == "0" + s[..|s| - 1];
      LeadingZero(s[..|s| - 1], base);
    }
  }

  // ----- Printing ----------------------------------------------------------------------------

  const ALPHABET := "0123456789abcdef"

  /** All digits but the last. */
  function Quot(v: nat, base: nat): (q: nat)
    requires IsBase(base)
    ensures v > 0 ==> q < v
  {
    if base == 8 then v / 8 else if base == 10 then v / 10 else v / 16
  }

  /** The last digit. */
  function Last(v: nat, base: nat): (d: nat)
    requires IsBase(base)
    ensures d < base
  {
    if base == 8 then v % 8 else if base == 10 then v % 10 else v % 16
  }

  lemma Divides(v: nat, base: nat)
    requires IsBase(base)
    ensures Quot(v, base) == v / base && Last(v, base) == v % base && v == Quot(v, base) * base + Last(v, base)
  {
  }

  /** The digits of a number, without leading zeros. */
  function Digits(v: nat, base: nat): string
    requires IsBase(base)
  {
    if v == 0 then "" else Digits(Quot(v, base), base) + [ALPHABET[Last(v, base)]]
  }

  function Render(v: nat, base: nat): (s: string)
    requires IsBase(base)
    ensures s != ""
  {
    if v == 0 then "0" else Digits(v, base)
  }

  function RenderSigned(v: int, base: nat): string
    requires IsBase(base)
  {
    if v < 0 then "-" + Render(-v, base) else Render(v, base)
  }

  lemma AlphabetWeight(d: nat, base: nat)
    requires IsBase(base) && d < base
    ensures Weight(ALPHABET[d], base) == d && (ALPHABET[d] == '0' <==> d == 0)
  {
    if d < 10 {
      assert ALPHABET[d] as int == '0' as int + d;
    } else {
      assert ALPHABET[d] as int == 'a' as int + d - 10;
    }
  }

  /** Letters are printed in lower case. */
  lemma {:induction false} DigitsAreLower(v: nat, base: nat)
    requires IsBase(base)
    ensures forall i :: 0 <= i < |Digits(v, base)| ==>
      var c := Digits(v, base)[i]; '0' <= c <= '9' || 'a' <= c <= 'f'
  {
    if v > 0 {
      DigitsAreLower(Quot(v, base), base);
      var d := Last(v, base);
      assert '0' <= ALPHABET[d] <= '9' || 'a' <= ALPHABET[d] <= 'f';
    }
  }

  /** What is printed denotes the number. */
  lemma {:induction false} DigitsValue(v: nat, base: nat)
    requires IsBase(base)
    ensures Value(Digits(v, base), base) == v && AllDigits(Digits(v, base), base)
    ensures v > 0 ==> Digits(v, base)[0] != '0'
  {
    hide Weight, Quot, Last;
    if v > 0 {
      var q, d := Quot(v, base), Last(v, base);
      DigitsValue(q, base);
      AlphabetWeight(d, base);
      Divides(v, base);
      assert Digits(v, base)[..|Digits(v, base)| - 1] == Digits(q, base);
    }
  }

  function Power(base: nat, n: nat): (p: nat)
    ensures base > 0 ==> p > 0
  {
    if n == 0 then 1 else base * Power(base, n - 1)
  }

  /** A number has at most `n` digits exactly when it is below the `n`-th power of the base. */
  lemma {:induction false} DigitsFitIff(v: nat, base: nat, n: nat)
    requires IsBase(base)
    ensures |Digits(v, base)| <= n <==> v < Power(base, n)
  {
    hide Quot, Last;
    if v > 0 && n > 0 {
      var q := Quot(v, base);
      DigitsFitIff(q, base, n - 1);
      Divides(v, base);
      DividedIff(v, base, q, Power(base, n - 1));
      assert |Digits(v, base)| == |Digits(q, base)| + 1;
    }
  }

  lemma DividedIff(v: nat, base: nat, q: nat, p: nat)
    requires base > 0 && q * base <= v < q * base + base
    ensures q < p <==> v < base * p
  {
    if q < p {
      assert base * (q + 1) <= base * p;
    } else {
      assert base * p <= base * q;
    }
  }

  /** Every 64-bit number has room in the scratch buffer in bases 10 and 16; in base 8 not all have. */
  lemma ScratchBound(v: nat, base: nat)
    requires IsBase(base) && v < TWO64
    ensures |Digits(v, base)| <= MAX_DIGITS <==> base != 8 || v < 0x1000_0000_0000_0000
  {
    DigitsFitIff(v, base, MAX_DIGITS);
    Power20();
  }

  lemma Power20()
    ensures Power(8, 20) == 0x1000_0000_0000_0000
    ensures Power(10, 20) == 100_000_000_000_000_000_000
    ensures Power(16, 20) == 0x1_0000_0000_0000_0000_0000
  {
    assert Power(8, 5) == 32768 && Power(10, 5) == 100_000 && Power(16, 5) == 0x10_0000;
    assert Power(8, 10) == 0x4000_0000 && Power(10, 10) == 10_000_000_000 && Power(16, 10) == 0x100_0000_0000;
    assert Power(8, 15) == 0x2000_0000_0000 && Power(10, 15) == 1_000_000_000_000_000;
    assert Power(16, 15) == 0x1000_0000_0000_0000;
  }

  // ----- Reading -----------------------------------------------------------------------------

  /** A number and where its text ends, or a panic. */
  datatype Reading = Number(value: nat, end: nat) | Panic

  predicate IsSpace(c: char) {
    c == ' ' || c == '\t' || c == '\n' || c == '\U{0C}' || c == '\r'
  }

  function SkipSpace(s: string, p: nat): (q: nat)
    requires p <= |s|
    ensures p <= q <= |s|
    decreases |s| - p
  {
    if p < |s| && IsSpace(s[p]) then SkipSpace(s, p + 1) else p
  }

  function SkipDigits(s: string, p: nat, base: nat): (q: nat)
    requires p <= |s| && IsBase(base)
    ensures p <= q <= |s|
    decreases |s| - p
  {
    if p < |s| && IsDigit(s[p], base) then SkipDigits(s, p + 1, base) else p
  }

  predicate HasSign(s: string, p: nat) {
    p < |s| && (s[p] == '+' || s[p] == '-')
  }

  predicate HasHexPrefix(s: string, p: nat) {
    p + 1 < |s| && s[p] == '0' && (s[p + 1] == 'x' || s[p + 1] == 'X')
  }

  /** Where the digits start, and their base. */
  function Prefix(s: string, p: nat, base: nat): (r: (nat, nat))
    requires p <= |s| && (base == 0 || IsBase(base))
    ensures p <= r.0 <= |s| && IsBase(r.1)
  {
    if (base == 16 || base == 0) && HasHexPrefix(s, p) then (p + 2, 16)
    else if (base == 8 || base == 0) && p < |s| && s[p] == '0' then (p + 1, 8)
    else (p, if base == 0 then 10 else base)
  }

  /** What the value of the digits becomes in 64 bits. */
  function Clamp(v: nat, negative: bool): (r: nat)
    ensures r < TWO64
  {
    if v >= TWO64 then TWO64 - 1 else if negative then (TWO64 - v) % TWO64 else v
  }

  predicate Negative(s: string, p: nat) {
    p < |s| && s[p] == '-'
  }

  function AfterSign(s: string, p: nat): (q: nat)
    requires p <= |s|
    ensures p <= q <= |s|
  {
    if HasSign(s, p) then p + 1 else p
  }

  /** What is read behind the white space. */
  function ReadFrom(s: string, p: nat, base: nat): Reading
    requires p <= |s| && (base == 0 || IsBase(base))
  {
    var (start, b) := Prefix(s, AfterSign(s, p), base);
    var end := SkipDigits(s, start, b);
    Number(Clamp(Value(s[start..end], b), Negative(s, p)), end)
  }

  function Strtoul(s: string, base: nat): Reading
    requires base == 0 || IsBase(base)
  {
    if s == "" && (base == 16 || base == 0) then Panic else ReadFrom(s, SkipSpace(s, 0), base)
  }

  lemma {:induction false} SkipSpaceIs(s: string, p: nat, q: nat)
    requires p <= q <= |s| && (forall i :: p <= i < q ==> IsSpace(s[i])) && (q < |s| ==> !IsSpace(s[q]))
    ensures SkipSpace(s, p) == q
    decreases q - p
  {
    if p < q {
      SkipSpaceIs(s, p + 1, q);
    }
  }

  lemma {:induction false} SkipDigitsIs(s: string, p: nat, base: nat, q: nat)
    requires p <= q <= |s| && IsBase(base)
    requires (forall i :: p <= i < q ==> IsDigit(s[i], base)) && (q < |s| ==> !IsDigit(s[q], base))
    ensures SkipDigits(s, p, base) == q
    decreases q - p
  {
    if p < q {
      SkipDigitsIs(s, p + 1, base, q);
    }
  }

  /** White space, a sign, digits of the base, and then something else. */
  predicate WellFormed(ws: string, sign: string, ds: string, rest: string, base: nat)
    requires IsBase(base)
  {
    && (forall i :: 0 <= i < |ws| ==> IsSpace(ws[i]))
    && (sign == "" || sign == "+" || sign == "-")
    && ds != "" && AllDigits(ds, base)
    && (rest != "" ==> !IsDigit(rest[0], base))
    && (base == 16 ==> !HasHexPrefix(ds + rest, 0))
  }

  /** Every text of that form is read as the number it denotes, up to where the digits end. */
  lemma ReadsForm(ws: string, sign: string, ds: string, rest: string, base: nat)
    requires IsBase(base) && WellFormed(ws, sign, ds, rest, base)
    ensures Strtoul(ws + sign + ds + rest, base) == Number(Clamp(Value(ds, base), sign == "-"), |ws + sign + ds|)
  {
    hide Value, IsDigit, AllDigits, Clamp, SkipSpace, SkipDigits, Prefix, HasHexPrefix, HasSign, Negative, AfterSign;
    var t := ds + rest;
    assert ws + sign + ds + rest == ws + sign + t;
    FirstDigit(ds, base);
    SignRead(ws, sign, t);
    ReadsDigits(ws + sign + t, |ws + sign|, ds, rest, base);
  }

  /** White space and sign are passed over. */
  lemma SignRead(ws: string, sign: string, t: string)
    requires (forall i :: 0 <= i < |ws| ==> IsSpace(ws[i])) && (sign == "" || sign == "+" || sign == "-")
    requires t != "" && !IsSpace(t[0]) && t[0] != '+' && t[0] != '-'
    ensures var s := ws + sign + t;
      && SkipSpace(s, 0) == |ws| && AfterSign(s, |ws|) == |ws + sign|
      && (Negative(s, |ws|) <==> sign == "-") && s[|ws + sign|..] == t
  {
    hide SkipSpace;
    var s := ws + sign + t;
    assert s[|ws|] == if sign == "" then t[0] else sign[0];
    SkipSpaceIs(s, 0, |ws|);
  }

  /** A number too large for 64 bits is read as the largest, with or without a sign; others as they are or negated. */
  lemma ReadValue(ws: string, sign: string, ds: string, rest: string, base: nat)
    requires IsBase(base) && WellFormed(ws, sign, ds, rest, base)
    ensures var r := Strtoul(ws + sign + ds + rest, base);
      && r.Number? && r.value < 0x1_0000_0000_0000_0000
      && (Value(ds, base) >= 0x1_0000_0000_0000_0000 ==> r.value == 0xFFFF_FFFF_FFFF_FFFF)
      && (Value(ds, base) < 0x1_0000_0000_0000_0000 ==>
            if sign == "-" then r.value == 0 == Value(ds, base) || r.value + Value(ds, base) == 0x1_0000_0000_0000_0000
            else r.value == Value(ds, base))
  {
    hide Strtoul, Value, WellFormed;
    ReadsForm(ws, sign, ds, rest, base);
  }

  /** The same behind a prefix, which bases 0 and 16 allow. */
  lemma ReadsPrefixed(ws: string, sign: string, x: char, ds: string, rest: string, base: nat)
    requires (base == 0 || base == 16) && (x == 'x' || x == 'X')
    requires (forall i :: 0 <= i < |ws| ==> IsSpace(ws[i])) && (sign == "" || sign == "+" || sign == "-")
    requires ds != "" && AllDigits(ds, 16) && (rest != "" ==> !IsDigit(rest[0], 16))
    ensures Strtoul(ws + sign + (['0', x] + ds + rest), base) ==
            Number(Clamp(Value(ds, 16), sign == "-"), |ws + sign| + 2 + |ds|)
  {
    hide Value, Clamp, SkipSpace, SkipDigits, IsDigit, AllDigits, Prefix, HasSign, Negative, AfterSign, Strtoul;
    var t := ['0', x] + ds + rest;
    assert t[0] == '0';
    var s, q := ws + sign + t, |ws + sign|;
    SignRead(ws, sign, t);
    PrefixRead(s, q, x, ds, rest, base);
    StrtoulIs(s, base, |ws|, q + 2, 16, q + 2 + |ds|);
  }

  lemma StrtoulIs(s: string, base: nat, p: nat, start: nat, b: nat, end: nat)
    requires (base == 0 || IsBase(base)) && s != "" && SkipSpace(s, 0) == p && IsBase(b)
    requires Prefix(s, AfterSign(s, p), base) == (start, b) && SkipDigits(s, start, b) == end
    ensures Strtoul(s, base) == Number(Clamp(Value(s[start..end], b), Negative(s, p)), end)
  {
  }

  lemma PrefixRead(s: string, q: nat, x: char, ds: string, rest: string, base: nat)
    requires (base == 0 || base == 16) && (x == 'x' || x == 'X')
    requires ds != "" && AllDigits(ds, 16) && (rest != "" ==> !IsDigit(rest[0], 16))
    requires q <= |s| && s[q..] == ['0', x] + ds + rest
    ensures Prefix(s, q, base) == (q + 2, 16) && q + 2 + |ds| <= |s|
    ensures SkipDigits(s, q + 2, 16) == q + 2 + |ds| && s[q + 2..q + 2 + |ds|] == ds
  {
    hide SkipDigits, IsDigit;
    assert s[q] == s[q..][0] == '0' && s[q + 1] == s[q..][1] == x;
    assert s[q + 2..] == s[q..][2..] == ds + rest;
    DigitRun(s, q + 2, ds, rest, 16);
    PrefixTaken(s, q, base);
  }

  lemma PrefixTaken(s: string, q: nat, base: nat)
    requires HasHexPrefix(s, q) && (base == 0 || base == 16)
    ensures Prefix(s, q, base) == (q + 2, 16)
  {
  }

  /** Digits that something else follows are the digits that are read. */
  lemma DigitRun(s: string, q: nat, ds: string, rest: string, base: nat)
    requires IsBase(base) && AllDigits(ds, base) && (rest != "" ==> !IsDigit(rest[0], base))
    requires q <= |s| && s[q..] == ds + rest
    ensures q + |ds| <= |s| && s[q..q + |ds|] == ds
    ensures SkipDigits(s, q, base) == q + |ds|
  {
    hide IsDigit, SkipDigits;
    var t := ds + rest;
    assert |s| == q + |t|;
    forall i | q <= i < q + |ds| ensures s[i] == ds[i - q] {
      assert s[i] == s[q..][i - q] == t[i - q];
    }
    if rest != "" {
      assert s[q + |ds|] == s[q..][|ds|] == t[|ds|] == rest[0];
    }
    SkipDigitsIs(s, q, base, q + |ds|);
  }

  lemma FirstDigit(ds: string, base: nat)
    requires IsBase(base) && ds != "" && AllDigits(ds, base)
    ensures !IsSpace(ds[0]) && ds[0] != '+' && ds[0] != '-'
  {
    DigitIsPlain(ds[0], base);
  }

  lemma ReadsDigits(s: string, q: nat, ds: string, rest: string, base: nat)
    requires IsBase(base) && WellFormed("", "", ds, rest, base) && q <= |s| && s[q..] == ds + rest
    ensures var (start, b) := Prefix(s, q, base);
      var end := q + |ds|;
      b == base && SkipDigits(s, start, b) == end <= |s| && start <= end && Value(s[start..end], b) == Value(ds, b)
  {
    hide Value, IsDigit, SkipDigits, Prefix, HasHexPrefix;
    DigitRun(s, q, ds, rest, base);
    PrefixOfDigits(s, q, ds, rest, base);
    if base == 8 && s[q] == '0' {
      LeadingDigit(s, q, ds, rest, base);
    }
  }

  /** Without `0x`, only a zero in octal counts as a prefix. */
  lemma PrefixOfDigits(s: string, q: nat, ds: string, rest: string, base: nat)
    requires IsBase(base) && ds != "" && q <= |s| && s[q..] == ds + rest
    requires base == 16 ==> !HasHexPrefix(ds + rest, 0)
    ensures q < |s| && s[q] == ds[0]
    ensures Prefix(s, q, base) == (if base == 8 && s[q] == '0' then q + 1 else q, base)
  {
    assert s[q] == s[q..][0] == ds[0];
    SamePrefix(s, q, ds + rest);
  }

  lemma LeadingDigit(s: string, q: nat, ds: string, rest: string, base: nat)
    requires IsBase(base) && ds != "" && AllDigits(ds, base) && (rest != "" ==> !IsDigit(rest[0], base))
    requires q < |s| && s[q..] == ds + rest && s[q] == '0'
    ensures var end := q + |ds|;
      && q + 1 <= end <= |s| && SkipDigits(s, q + 1, base) == end
      && Value(s[q + 1..end], base) == Value(ds, base)
  {
    hide Value, IsDigit, SkipDigits, IsBase;
    var t := ds[1..];
    TailOf(s, q, ds, rest);
    assert AllDigits(t, base);
    DigitRun(s, q + 1, t, rest, base);
    LeadingZero(t, base);
  }

  lemma TailOf(s: string, q: nat, ds: string, rest: string)
    requires q < |s| && ds != "" && s[q..] == ds + rest
    ensures s[q] == ds[0] && s[q + 1..] == ds[1..] + rest && (ds[0] == '0' ==> ds == "0" + ds[1..])
  {
    assert s[q] == s[q..][0] == ds[0];
    assert s[q + 1..] == s[q..][1..];
    assert (ds + rest)[1..] == ds[1..] + rest;
  }

  lemma SamePrefix(s: string, q: nat, t: string)
    requires q <= |s| && s[q..] == t
    ensures HasHexPrefix(s, q) <==> HasHexPrefix(t, 0)
  {
    assert forall i :: q <= i < |s| ==> s[i] == t[i - q];
  }

  lemma DigitIsPlain(c: char, base: nat)
    requires IsBase(base) && IsDigit(c, base)
    ensures !IsSpace(c) && c != '+' && c != '-' && c != 'x' && c != 'X'
  {
  }

  /** Reading undoes printing, for all numbers that are printed in full. */
  lemma ReadsRendered(v: nat, base: nat)
    requires IsBase(base) && v < TWO64
    ensures Strtoul(Render(v, base), base) == Number(v, |Render(v, base)|)
  {
    hide Strtoul, Weight, Value, WellFormed, Render;
    RenderedForm(v, base);
    assert "" + "" + Render(v, base) + "" == Render(v, base);
    ReadsForm("", "", Render(v, base), "", base);
  }

  lemma RenderedForm(v: nat, base: nat)
    requires IsBase(base)
    ensures WellFormed("", "", Render(v, base), "", base) && WellFormed("", "-", Render(v, base), "", base)
    ensures Value(Render(v, base), base) == v
  {
    DigitsValue(v, base);
    var s := Render(v, base);
    if |s| > 1 {
      assert IsDigit(s[1], base);
      DigitIsPlain(s[1], base);
    }
    assert s + "" == s;
    assert Value("0", base) == 0 by {
      assert "0"[..0] == "";
    }
  }

  /** A signed number is read as its two's complement. */
  lemma ReadsSigned(v: int, base: nat)
    requires IsBase(base) && -(TWO64 / 2) <= v < TWO64 / 2
    ensures Strtoul(RenderSigned(v, base), base) == Number(v % TWO64, |RenderSigned(v, base)|)
  {
    hide Strtoul, Weight, Render, Value, Clamp, WellFormed;
    if v >= 0 {
      ReadsRendered(v, base);
    } else {
      RenderedForm(-v, base);
      assert "" + "-" + Render(-v, base) + "" == RenderSigned(v, base);
      ReadsForm("", "-", Render(-v, base), "", base);
      assert "" + "-" == "-";
      Complement(v);
    }
  }

  lemma Complement(v: int)
    requires -(TWO64 / 2) <= v < 0
    ensures Clamp(-v, true) == v % TWO64
  {
  }

  /** With base 0 the printed decimal is read too, and hexadecimals behind their prefix. */
  lemma ReadsAuto(v: nat)
    requires v < TWO64
    ensures Strtoul(Render(v, 10), 0) == Number(v, |Render(v, 10)|)
    ensures Strtoul("0x" + Render(v, 16), 0) == Number(v, 2 + |Render(v, 16)|)
  {
    DecimalAuto(v);
    HexAuto(v);
  }

  lemma DecimalAuto(v: nat)
    requires v < TWO64
    ensures Strtoul(Render(v, 10), 0) == Number(v, |Render(v, 10)|)
  {
    hide Weight, Value;
    var s := Render(v, 10);
    if v == 0 {
      SkipSpaceIs(s, 0, 0);
      SkipDigitsIs(s, 1, 8, 1);
      assert s[1..1] == "";
      assert Value("", 8) == 0 by { EmptyValue(8); }
    } else {
      DigitsValue(v, 10);
      assert IsDigit(s[0], 10);
      DigitIsPlain(s[0], 10);
      SkipSpaceIs(s, 0, 0);
      SkipDigitsIs(s, 0, 10, |s|);
      assert s[0..|s|] == s;
    }
  }

  lemma EmptyValue(base: nat)
    requires IsBase(base)
    ensures Value("", base) == 0
  {
  }

  lemma HexAuto(v: nat)
    requires v < TWO64
    ensures Strtoul("0x" + Render(v, 16), 0) == Number(v, 2 + |Render(v, 16)|)
  {
    hide Strtoul, Weight, Value, Render, IsDigit;
    RenderedForm(v, 16);
    assert "" + "" + (['0', 'x'] + Render(v, 16) + "") == "0x" + Render(v, 16);
    ReadsPrefixed("", "", 'x', Render(v, 16), "", 0);
  }
}
