/** Fastboot over TCP: a handshake, then packets prefixed with their length in eight big-endian bytes. */
module TcpFraming {
  import opened Basics
  import opened ByteOrder

  type Bytes = seq<byte>

  const HANDSHAKE: Bytes := [0x46, 0x42, 0x30, 0x31]

  // ----- The wire format ---------------------------------------------------------------------

  function Encode(p: Bytes): Bytes {
    ToBe(|p|, 8) + p
  }

  function EncodeAll(ps: seq<Bytes>): Bytes {
    if ps == [] then [] else Encode(ps[0]) + EncodeAll(ps[1..])
  }

  /** The first packet, if it is there in full and no longer than `limit`. */
  function FirstPacket(s: Bytes, limit: nat): Option<Bytes> {
    if |s| < 8 then None else
    var size := FromBe(s[..8]);
    if limit < size || |s| < 8 + size then None else Some(s[8..8 + size])
  }

  function DecodeAll(s: Bytes, limit: nat): seq<Bytes>
    decreases |s|
  {
    var first := FirstPacket(s, limit);
    if first.None? then [] else [first.value] + DecodeAll(s[8 + |first.value|..], limit)
  }

  /** Eight bytes of length, the most significant first, and then the packet. */
  lemma PacketLayout(p: Bytes)
    requires |p| < 0x1_0000_0000_0000_0000
    ensures |Encode(p)| == 8 + |p| && FromBe(Encode(p)[..8]) == |p| && Encode(p)[8..] == p
  {
    Powers();
    FromToBe(|p|, 8);
    assert Encode(p)[..8] == ToBe(|p|, 8);
  }

  /** A packet decodes from whatever follows it, provided the receiver has room for it. */
  lemma FirstOfEncoded(p: Bytes, rest: Bytes, limit: nat)
    requires |p| < Pow256(8)
    ensures FirstPacket(Encode(p) + rest, limit) == if |p| <= limit then Some(p) else None
    ensures (Encode(p) + rest)[8 + |p|..] == rest
  {
    var s := Encode(p) + rest;
    assert s[..8] == ToBe(|p|, 8);
    FromToBe(|p|, 8);
    assert s[8..8 + |p|] == p;
  }

  predicate AllFit(ps: seq<Bytes>, limit: nat) {
    forall i :: 0 <= i < |ps| ==> |ps[i]| <= limit
  }

  /** Decoding gives back any packets sent, exactly when the receiver has room for each. */
  lemma {:induction false} DecodeInvertsEncode(ps: seq<Bytes>, limit: nat)
    requires forall i :: 0 <= i < |ps| ==> |ps[i]| < Pow256(8)
    ensures DecodeAll(EncodeAll(ps), limit) == ps <==> AllFit(ps, limit)
  {
    if ps == [] {
    } else {
      var p, rest := ps[0], ps[1..];
      FirstOfEncoded(p, EncodeAll(rest), limit);
      DecodeInvertsEncode(rest, limit);
      assert AllFit(ps, limit) <==> |p| <= limit && AllFit(rest, limit) by {
        assert ps == [p] + rest;
      }
      if |p| <= limit {
        assert DecodeAll(EncodeAll(ps), limit) == [p] + DecodeAll(EncodeAll(rest), limit);
        assert ([p] + DecodeAll(EncodeAll(rest), limit))[1..] == DecodeAll(EncodeAll(rest), limit);
      }
    }
  }

  // ----- The transport -----------------------------------------------------------------------

  /** A TCP connection: what is still to be read, and what has been written. */
  class TcpStream {
    var incoming: Bytes
    var outgoing: Bytes
    /** An operation has failed. */
    var broken: bool

    constructor (incoming: Bytes)
      ensures this.incoming == incoming && outgoing == [] && !broken
    {
      this.incoming, outgoing, broken := incoming, [], false;
    }

    method ReadExact(n: nat) returns (r: Option<Bytes>)
      modifies this`incoming, this`broken
      ensures r.Some? ==> n <= |old(incoming)| && r.value == old(incoming)[..n] && incoming == old(incoming)[n..]
      ensures r.None? ==> broken || |old(incoming)| < n
      ensures r.Some? ==> broken == old(broken)
    {
      var breaks: bool := *;
      if breaks || |incoming| < n {
        broken := broken || breaks;
        return None;
      }
      r := Some(incoming[..n]);
      incoming := incoming[n..];
    }

    method WriteExact(data: Bytes) returns (ok: bool)
      modifies this`outgoing, this`broken
      ensures ok ==> outgoing == old(outgoing) + data
      ensures old(outgoing) <= outgoing <= old(outgoing) + data
      ensures broken == (old(broken) || !ok)
    {
      ok := *;
      if ok {
        outgoing := outgoing + data;
      }
      broken := broken || !ok;
    }
  }

  method NewAndHandshake(s: TcpStream) returns (ok: bool)
    modifies s
    ensures var fb01: Bytes := [0x46, 0x42, 0x30, 0x31];
      && (ok ==> s.outgoing == old(s.outgoing) + fb01 && old(s.incoming) == fb01 + s.incoming)
      && (!ok ==> s.broken || !(fb01 <= old(s.incoming)))
  {
    ok := s.WriteExact(HANDSHAKE);
    if !ok {
      return false;
    }
    assert HANDSHAKE <= s.incoming ==> s.incoming[..4] == HANDSHAKE;
    var reply := s.ReadExact(4);
    return reply == Some(HANDSHAKE);
  }

  method SendPacket(s: TcpStream, p: Bytes) returns (ok: bool)
    modifies s`outgoing, s`broken
    ensures ok ==> s.outgoing == old(s.outgoing) + Encode(p)
    ensures !ok ==> s.broken
  {
    ok := s.WriteExact(ToBe(|p|, 8));
    if ok {
      ok := s.WriteExact(p);
      assert old(s.outgoing) + ToBe(|p|, 8) + p == old(s.outgoing) + Encode(p);
    }
  }

  /** On success the packet is the next one on the wire, and exactly it has been taken off. */
  method ReceivePacket(s: TcpStream, out: array<byte>) returns (r: Option<nat>)
    modifies s`incoming, s`broken, out
    ensures r.Some? ==>
              && r.value <= out.Length && 8 + r.value <= |old(s.incoming)|
              && FirstPacket(old(s.incoming), out.Length) == Some(out[..r.value])
              && s.incoming == old(s.incoming)[8 + r.value..]
    ensures FirstPacket(old(s.incoming), out.Length).None? ==> r.None?
    ensures r.None? ==> s.broken || FirstPacket(old(s.incoming), out.Length).None?
  {
    var prefix := s.ReadExact(8);
    if prefix.None? {
      return None;
    }
    var size := FromBe(prefix.value);
    if out.Length < size {
      return None;
    }
    var data := s.ReadExact(size);
    if data.None? {
      return None;
    }
    for i := 0 to size
      invariant out[..i] == data.value[..i]
      invariant s.incoming == old(s.incoming)[8..][size..]
    {
      out[i] := data.value[i];
    }
    assert out[..size] == data.value == old(s.incoming)[8..8 + size];
    return Some(size);
  }
}
