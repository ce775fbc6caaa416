/** The loops that print and read numbers. */
module NumberOps {
  import opened Basics
  import opened Numbers

  /** Collects the digits in a scratch buffer, last digit first; nothing if they do not fit. */
  method CollectDigits(value: nat, base: nat, tmp: array<char>) returns (r: Option<nat>)
    requires IsBase(base)
    modifies tmp
    ensures r.None? <==> |Digits(value, base)| > tmp.Length
    ensures r.Some? ==> r.value <= tmp.Length && Reversed(tmp[..r.value]) == Digits(value, base)
  {
    hide Quot, Last, Reversed;
    var n, v: nat := 0, value;
    assert Reversed(tmp[..0]) == "";
    while v > 0
      invariant n <= tmp.Length && Digits(value, base) == Digits(v, base) + Reversed(tmp[..n])
      decreases v
    {
      Divides(v, base);
      if n == tmp.Length {
        return None;
      }
      var c := ALPHABET[v % base];
      ghost var before := tmp[..n];
      tmp[n] := c;
      assert tmp[..n + 1] == before + [c];
      ReversedSnoc(before, c);
      assert Digits(v, base) + Reversed(before) == Digits(v / base, base) + ([c] + Reversed(before));
      n := n + 1;
      v := v / base;
    }
    assert "" + Reversed(tmp[..n]) == Reversed(tmp[..n]);
    return Some(n);
  }

  /**
   Prints into the buffer from `at` on, as much as fits.  The result is None where the digits overrun
   the scratch buffer, which C leaves undefined.
   */
  method FormatUnsigned(value: nat, buffer: array<char>, at: nat, base: nat) returns (used: Option<nat>)
    requires IsBase(base) && at <= buffer.Length
    modifies buffer
    ensures used.None? <==> at < buffer.Length && |Digits(value, base)| > MAX_DIGITS
    ensures used.Some? ==> used.value == Min(|Render(value, base)|, buffer.Length - at)
    ensures used.Some? ==> buffer[..] == Spliced(old(buffer[..]), at, Render(value, base)[..used.value])
    ensures used.None? ==> buffer[..] == old(buffer[..])
  {
    hide Digits, Reversed;
    if buffer.Length == at {
      assert Render(value, base)[..0] == "";
      return Some(0);
    }
    if value == 0 {
      assert Render(value, base) == "0" == "0"[..1];
      NoDigits(base);
      buffer[at] := '0';
      return Some(1);
    }
    var tmp := new char[MAX_DIGITS];
    var n := CollectDigits(value, base, tmp);
    if n.None? {
      return None;
    }
    var k := CopyReversed(tmp, n.value, buffer, at);
    return Some(k);
  }

  lemma NoDigits(base: nat)
    requires IsBase(base)
    ensures Digits(0, base) == ""
  {
  }

  /** Copies back to front, as much as fits. */
  method CopyReversed(tmp: array<char>, n: nat, buffer: array<char>, at: nat) returns (used: nat)
    requires n <= tmp.Length && at <= buffer.Length && tmp != buffer
    modifies buffer
    ensures used == Min(n, buffer.Length - at)
    ensures buffer[..] == Spliced(old(buffer[..]), at, Reversed(tmp[..n])[..used])
  {
    hide Reversed, Spliced;
    ghost var text := Reversed(tmp[..n]);
    used := 0;
    SplicedNone(buffer[..], at, text[..0]);
    while used < n && used < buffer.Length - at
      invariant used <= n && used <= buffer.Length - at
      invariant buffer[..] == Spliced(old(buffer[..]), at, text[..used])
    {
      FromTheBack(tmp[..n], used);
      SplicedNext(old(buffer[..]), at, text, used);
      buffer[at + used] := tmp[n - 1 - used];
      used := used + 1;
    }
  }

  method FormatSigned(value: int, buffer: array<char>, base: nat) returns (used: Option<nat>)
    requires IsBase(base) && -(TWO64 / 2) <= value < TWO64 / 2
    modifies buffer
    ensures var sign := if value < 0 then 1 else 0;
            used.None? <==> sign < buffer.Length && |Digits(if value < 0 then -value else value, base)| > MAX_DIGITS
    ensures used.Some? ==> used.value == Min(|RenderSigned(value, base)|, buffer.Length)
    ensures used.Some? ==> buffer[..] == Spliced(old(buffer[..]), 0, RenderSigned(value, base)[..used.value])
  {
    hide Digits, Render, Spliced;
    var n := 0;
    var abs := value;
    ghost var sign := "";
    SplicedNone(buffer[..], 0, sign);
    if value < 0 {
      if n < buffer.Length {
        sign := "-";
        SplicedFirst(buffer[..], '-');
        buffer[n] := '-';
        n := n + 1;
      }
      abs := if value == -(TWO64 / 2) then -(value + 1) + 1 else -value;
    }
    var more := FormatUnsigned(abs, buffer, n, base);
    if more.None? {
      return None;
    }
    ghost var digits := Render(abs, base)[..more.value];
    assert RenderSigned(value, base)[..n + more.value] == sign + digits;
    SplicedBehind(old(buffer[..]), 0, sign, digits);
    return Some(n + more.value);
  }

  lemma SplicedFirst(s: string, c: char)
    requires s != ""
    ensures Spliced(s, 0, [c]) == s[0 := c]
  {
  }

  /** Skips what tells the base. */
  method ReadPrefix(s: string, start: nat, base0: nat) returns (pos: nat, base: nat)
    requires start <= |s| && (base0 == 0 || IsBase(base0))
    ensures (pos, base) == Prefix(s, start, base0)
  {
    pos, base := start, base0;
    if (base == 16 || base == 0) && pos < |s| - 1 && s[pos] == '0' && (s[pos + 1] == 'x' || s[pos + 1] == 'X') {
      pos := pos + 2;
      base := 16;
    }
    if (base == 8 || base == 0) && pos < |s| && s[pos] == '0' {
      pos := pos + 1;
      base := 8;
    }
    if base == 0 {
      base := 10;
    }
  }

  /** `strtoul` with its sticky overflow; the length less one of an empty text is a panic. */
  method ReadNumber(s: string, base0: nat) returns (r: Reading)
    requires base0 == 0 || IsBase(base0)
    ensures r == Strtoul(s, base0)
  {
    hide Value, SkipDigits, Prefix;
    var pos := 0;
    var base := base0;
    var negative := false;
    while pos < |s| && IsSpace(s[pos])
      invariant pos <= |s| && SkipSpace(s, 0) == SkipSpace(s, pos)
    {
      pos := pos + 1;
    }
    if pos < |s| {
      if s[pos] == '+' {
        pos := pos + 1;
      } else if s[pos] == '-' {
        pos := pos + 1;
        negative := true;
      }
    }
    if |s| == 0 && (base == 16 || base == 0) {
      return Panic;
    }
    pos, base := ReadPrefix(s, pos, base);
    var end, result := ReadDigits(s, pos, base);
    var value := if result.Overflow? then TWO64 - 1
                 else if negative then (TWO64 - result.value) % TWO64
                 else result.value;
    return Number(value, end);
  }

  lemma NoValue(base: nat)
    requires IsBase(base)
    ensures Value("", base) == 0
  {
  }

  /** A sum in 64 bits that remembers an overflow. */
  datatype SafeNum = Exact(value: nat) | Overflow

  function Checked(v: nat): SafeNum {
    if v < TWO64 then Exact(v) else Overflow
  }

  method ReadDigits(s: string, start: nat, base: nat) returns (pos: nat, result: SafeNum)
    requires start <= |s| && IsBase(base)
    ensures pos == SkipDigits(s, start, base)
    ensures result == Checked(Value(s[start..pos], base))
  {
    hide Value, Weight;
    pos := start;
    result := Exact(0);
    assert s[start..pos] == "";
    NoValue(base);
    while pos < |s|
      invariant start <= pos <= |s| && SkipDigits(s, start, base) == SkipDigits(s, pos, base)
      invariant result == Checked(Value(s[start..pos], base))
    {
      var symbol := s[pos];
      var value := Weight(symbol, base);
      if value >= base {
        break;
      }
      Appended(s, start, pos, base);
      Grows(Value(s[start..pos], base), base, value);
      result := if result.Exact? then Checked(result.value * base + value) else Overflow;
      pos := pos + 1;
    }
  }

  lemma Appended(s: string, start: nat, pos: nat, base: nat)
    requires start <= pos < |s| && IsBase(base)
    ensures Value(s[start..pos + 1], base) == Value(s[start..pos], base) * base + Weight(s[pos], base)
  {
    assert s[start..pos + 1][..pos - start] == s[start..pos];
  }

  /** Once too large, always too large. */
  lemma Grows(v: nat, base: nat, d: nat)
    requires base > 0
    ensures v * base + d >= v
  {
  }
}
