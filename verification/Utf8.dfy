/** Bytes, and which of them are well-formed UTF-8 (RFC 3629). */
module Utf8 {

  /** A byte string, with one character per byte. */
  type Bytes = string

  predicate Continuation(s: Bytes, i: nat, lo: nat, hi: nat) {
    i < |s| && lo <= s[i] as nat <= hi
  }

  /** Well-formed UTF-8, byte by byte. */
  predicate ValidUtf8(s: Bytes) {
    if s == [] then true else
    var b := s[0] as nat;
    if b < 0x80 then ValidUtf8(s[1..])
    else if 0xC2 <= b <= 0xDF then Continuation(s, 1, 0x80, 0xBF) && ValidUtf8(s[2..])
    else if 0xE0 <= b <= 0xEF then
      && Continuation(s, 1, if b == 0xE0 then 0xA0 else 0x80, if b == 0xED then 0x9F else 0xBF)
      && Continuation(s, 2, 0x80, 0xBF) && ValidUtf8(s[3..])
    else if 0xF0 <= b <= 0xF4 then
      && Continuation(s, 1, if b == 0xF0 then 0x90 else 0x80, if b == 0xF4 then 0x8F else 0xBF)
      && Continuation(s, 2, 0x80, 0xBF) && Continuation(s, 3, 0x80, 0xBF) && ValidUtf8(s[4..])
    else false
  }

  // ----- The encoding -----------------------------------------------------------------------------

  /** A Unicode scalar value: surrogates are none. */
  predicate Scalar(c: nat) {
    c < 0xD800 || 0xE000 <= c < 0x11_0000
  }

  function Encoded(c: nat): (s: Bytes)
    requires Scalar(c)
    ensures s != []
  {
    if c < 0x80 then [c as char]
    else if c < 0x800 then [(0xC0 + c / 64) as char, (0x80 + c % 64) as char]
    else if c < 0x1_0000 then [(0xE0 + c / 64 / 64) as char, (0x80 + c / 64 % 64) as char, (0x80 + c % 64) as char]
    else
      [(0xF0 + c / 64 / 64 / 64) as char, (0x80 + c / 64 / 64 % 64) as char,
       (0x80 + c / 64 % 64) as char, (0x80 + c % 64) as char]
  }

  predicate Scalars(cs: seq<nat>) {
    forall i :: 0 <= i < |cs| ==> Scalar(cs[i])
  }

  function Encoding(cs: seq<nat>): Bytes
    requires Scalars(cs)
  {
    if cs == [] then [] else Encoded(cs[0]) + Encoding(cs[1..])
  }

  lemma EncodedIsValid(c: nat, rest: Bytes)
    requires Scalar(c)
    ensures ValidUtf8(Encoded(c) + rest) <==> ValidUtf8(rest)
  {
    var s := Encoded(c) + rest;
    assert s[|Encoded(c)|..] == rest;
  }

  lemma {:induction false} EncodingIsValid(cs: seq<nat>)
    requires Scalars(cs)
    ensures ValidUtf8(Encoding(cs))
  {
    if cs != [] {
      EncodingIsValid(cs[1..]);
      EncodedIsValid(cs[0], Encoding(cs[1..]));
    }
  }

  lemma Base64(hi: nat, lo: nat)
    requires lo < 64
    ensures (hi * 64 + lo) / 64 == hi && (hi * 64 + lo) % 64 == lo
  {
  }

  /** The scalar value of a lead byte and the six bits of each of `n` continuation bytes. */
  function Gathered(lead: nat, s: Bytes, n: nat): nat
    requires n < |s| && forall i :: 1 <= i <= n ==> Continuation(s, i, 0x80, 0xBF)
  {
    if n == 0 then lead else
    assert Continuation(s, n, 0x80, 0xBF);
    Gathered(lead, s, n - 1) * 64 + (s[n] as nat - 0x80)
  }

  lemma Scattered(lead: nat, s: Bytes, n: nat)
    requires 1 <= n < |s| && forall i :: 1 <= i <= n ==> Continuation(s, i, 0x80, 0xBF)
    ensures var c := Gathered(lead, s, n);
            c / 64 == Gathered(lead, s, n - 1) && 0x80 + c % 64 == s[n] as nat
  {
    assert Continuation(s, n, 0x80, 0xBF);
    Base64(Gathered(lead, s, n - 1), s[n] as nat - 0x80);
  }

  lemma FirstScalar(s: Bytes) returns (c: nat)
    requires s != [] && ValidUtf8(s)
    ensures Scalar(c) && Encoded(c) <= s && ValidUtf8(s[|Encoded(c)|..])
  {
    var b := s[0] as nat;
    if b < 0x80 {
      c := b;
    } else if b <= 0xDF {
      c := Gathered(b - 0xC0, s, 1);
      Scattered(b - 0xC0, s, 1);
    } else if b <= 0xEF {
      c := ThreeBytes(s);
    } else {
      c := FourBytes(s);
    }
  }

  lemma ThreeBytes(s: Bytes) returns (c: nat)
    requires s != [] && ValidUtf8(s) && 0xE0 <= s[0] as nat <= 0xEF
    ensures Scalar(c) && Encoded(c) == s[..3] && ValidUtf8(s[3..])
  {
    var lead := s[0] as nat - 0xE0;
    assert Continuation(s, 1, 0x80, 0xBF) && Continuation(s, 2, 0x80, 0xBF);
    c := Gathered(lead, s, 2);
    Scattered(lead, s, 2);
    Scattered(lead, s, 1);
    var mid := s[1] as nat - 0x80;
    assert c / 64 == lead * 64 + mid;
    assert 32 <= c / 64 < 1024;
    assert s[0] == 0xED as char ==> c / 64 < 13 * 64 + 32;
    assert s[0] != 0xED as char ==> c / 64 < 13 * 64 || c / 64 >= 14 * 64;
  }

  lemma FourBytes(s: Bytes) returns (c: nat)
    requires s != [] && ValidUtf8(s) && 0xF0 <= s[0] as nat
    ensures Scalar(c) && Encoded(c) == s[..4] && ValidUtf8(s[4..])
  {
    var lead := s[0] as nat - 0xF0;
    assert Continuation(s, 1, 0x80, 0xBF) && Continuation(s, 2, 0x80, 0xBF) && Continuation(s, 3, 0x80, 0xBF);
    c := Gathered(lead, s, 3);
    Scattered(lead, s, 3);
    Scattered(lead, s, 2);
    Scattered(lead, s, 1);
    var mid := s[1] as nat - 0x80;
    assert c / 64 / 64 == lead * 64 + mid;
    assert 16 <= c / 64 / 64 < 4 * 64 + 16;
  }

  lemma {:induction false} Decoded(s: Bytes) returns (cs: seq<nat>)
    requires ValidUtf8(s)
    ensures Scalars(cs) && Encoding(cs) == s
    decreases |s|
  {
    hide ValidUtf8, Encoded;
    if s == [] {
      cs := [];
    } else {
      var c := FirstScalar(s);
      var n := |Encoded(c)|;
      var rest := Decoded(s[n..]);
      cs := [c] + rest;
      assert cs[1..] == rest;
      assert s == s[..n] + s[n..];
    }
  }

  /** The bytes accepted are exactly the encodings of sequences of Unicode scalar values. */
  lemma ValidIff(s: Bytes)
    ensures ValidUtf8(s) <==> exists cs :: Scalars(cs) && Encoding(cs) == s
  {
    if ValidUtf8(s) {
      var cs := Decoded(s);
    }
    forall cs | Scalars(cs) && Encoding(cs) == s ensures ValidUtf8(s) {
      EncodingIsValid(cs);
    }
  }

  predicate Ascii(p: Bytes) {
    forall i :: 0 <= i < |p| ==> p[i] as nat < 0x80
  }

  lemma {:induction false} AsciiInFront(p: Bytes, s: Bytes)
    requires Ascii(p)
    ensures ValidUtf8(p + s) <==> ValidUtf8(s)
  {
    if p == [] {
      assert p + s == s;
    } else {
      assert (p + s)[1..] == p[1..] + s;
      AsciiInFront(p[1..], s);
    }
  }
}
