/** Memory as bytes, and the 64-bit words in it, least significant byte first. */
module Words {
  import opened Basics
  import opened ByteOrder

  type Memory = seq<byte>

  const WORD := 0x1_0000_0000_0000_0000

  function Word(m: Memory, a: nat): nat
    requires a + 8 <= |m|
  {
    FromLe(m[a..a + 8])
  }

  function Put(m: Memory, a: nat, v: nat): (m': Memory)
    requires a + 8 <= |m|
    ensures |m'| == |m|
  {
    Spliced(m, a, ToLe(v, 8))
  }

  lemma WordOfPut(m: Memory, a: nat, v: nat)
    requires a + 8 <= |m| && v < WORD
    ensures Word(Put(m, a, v), a) == v
  {
    assert Put(m, a, v)[a..a + 8] == ToLe(v, 8);
    Powers();
    FromToLe(v, 8);
  }

  lemma PutElsewhere(m: Memory, a: nat, v: nat, b: nat, n: nat)
    requires a + 8 <= |m| && b + n <= |m|
    requires b + n <= a || a + 8 <= b
    ensures Put(m, a, v)[b..b + n] == m[b..b + n]
  {
    assert forall x :: 0 <= x < |m| && !(a <= x < a + 8) ==> Put(m, a, v)[x] == m[x];
  }

  lemma SameWordSameBytes(m: Memory, m': Memory, a: nat)
    requires a + 8 <= |m| && a + 8 <= |m'| && Word(m, a) == Word(m', a)
    ensures m[a..a + 8] == m'[a..a + 8]
  {
    ToFromLe(m[a..a + 8]);
    ToFromLe(m'[a..a + 8]);
  }

  lemma WordIsSmall(m: Memory, a: nat)
    requires a + 8 <= |m|
    ensures Word(m, a) < WORD
  {
    ToFromLe(m[a..a + 8]);
    Powers();
  }
}
