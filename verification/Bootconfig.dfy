/** The bootconfig section: parameters followed by a trailer of size, checksum and magic. */
module Bootconfig {
  import opened Basics
  import opened ByteOrder

  /** The text "#BOOTCONFIG" and a line feed. */
  const MAGIC: seq<byte> := [35, 66, 79, 79, 84, 67, 79, 78, 70, 73, 71, 10]

  const TRAILER_SIZE: nat := 20

  const TWO32: nat := 0x1_0000_0000

  function Sum(s: seq<byte>): nat {
    if s == [] then 0 else Sum(s[..|s| - 1]) + s[|s| - 1]
  }

  /** Every byte counts once, wherever it is. */
  lemma {:induction false} SumOfParts(s: seq<byte>, t: seq<byte>)
    ensures Sum(s + t) == Sum(s) + Sum(t)
    ensures |t| == 1 ==> Sum(t) == t[0]
    decreases |t|
  {
    if t == [] {
      assert s + t == s;
    } else {
      assert (s + t)[..|s + t| - 1] == s + t[..|t| - 1];
      SumOfParts(s, t[..|t| - 1]);
      assert |t| == 1 ==> t[..0] == [];
    }
  }

  function Trailer(body: seq<byte>): (t: seq<byte>)
    ensures |t| == TRAILER_SIZE
  {
    ToLe(|body|, 4) + ToLe(Sum(body) % TWO32, 4) + MAGIC
  }

  /** The section for these parameters. */
  function Image(body: seq<byte>): (s: seq<byte>)
    ensures |s| == |body| + TRAILER_SIZE
  {
    body + Trailer(body)
  }

  predicate EndsInMagic(s: seq<byte>) {
    |s| >= 12 && s[|s| - 12..] == MAGIC
  }

  /** A section that a kernel accepts: the trailer describes all that precedes it. */
  predicate Accepted(section: seq<byte>) {
    var n := |section| - TRAILER_SIZE;
    && n >= 0
    && FromLe(section[n..n + 4]) == n
    && FromLe(section[n + 4..n + 8]) == Sum(section[..n]) % TWO32
    && section[n + 8..] == MAGIC
  }

  /** Images are exactly the accepted sections. */
  lemma AcceptedIffImage(section: seq<byte>)
    ensures Accepted(section) <==> exists body :: |body| < TWO32 && section == Image(body)
  {
    hide Accepted, Image;
    if Accepted(section) {
      AcceptedCuts(section);
    }
    forall body: seq<byte> | |body| < TWO32 && section == Image(body) ensures Accepted(section) {
      ImageAccepted(body);
    }
  }

  lemma AcceptedCuts(section: seq<byte>)
    requires Accepted(section)
    ensures |section| >= TRAILER_SIZE
    ensures var body := section[..|section| - TRAILER_SIZE]; |body| < TWO32 && section == Image(body)
  {
    hide FromLe, ToLe, Sum;
    var n := |section| - TRAILER_SIZE;
    var body, size, sum := section[..n], section[n..n + 4], section[n + 4..n + 8];
    AcceptedIsImage(body, size, sum);
    assert section == body + (size + sum + section[n + 8..]);
  }

  lemma AcceptedIsImage(body: seq<byte>, size: seq<byte>, sum: seq<byte>)
    requires |size| == 4 && |sum| == 4 && FromLe(size) == |body| && FromLe(sum) == Sum(body) % TWO32
    ensures size + sum + MAGIC == Trailer(body) && |body| < TWO32
  {
    ToFromLe(size);
    ToFromLe(sum);
    Powers();
  }

  lemma ImageAccepted(body: seq<byte>)
    requires |body| < TWO32
    ensures Accepted(Image(body)) && Image(body)[..|body|] == body && EndsInMagic(Image(body))
  {
    hide ToLe, FromLe;
    var s, n := Image(body), |body|;
    var size, sum := ToLe(n, 4), ToLe(Sum(body) % TWO32, 4);
    assert s == body + (size + sum + MAGIC);
    assert s[..n] == body && s[n..n + 4] == size && s[n + 4..n + 8] == sum && s[n + 8..] == MAGIC;
    Powers();
    FromToLe(n, 4);
    FromToLe(Sum(body) % TWO32, 4);
    assert |s| - 12 == n + 8;
  }

  lemma ImageEnds(pre: seq<byte>, body: seq<byte>)
    ensures EndsInMagic(pre + Image(body))
  {
    hide ToLe, Sum;
    var head := ToLe(|body|, 4) + ToLe(Sum(body) % TWO32, 4);
    assert pre + Image(body) == (pre + body + head) + MAGIC;
  }

  // ----- Appending with libxbc ---------------------------------------------------------------

  /** What the section holds without its trailer; `pre` is the memory before it. */
  function Stripped(pre: seq<byte>, section: seq<byte>): (body: seq<byte>)
    requires EndsInMagic(pre + section) ==> |section| >= TRAILER_SIZE
    ensures body <= section
  {
    if EndsInMagic(pre + section) then section[..|section| - TRAILER_SIZE] else section
  }

  /** A trailer is added unless one seems to be there. */
  function Closed(pre: seq<byte>, body: seq<byte>): (section: seq<byte>)
    ensures body <= section && |section| <= |body| + TRAILER_SIZE
  {
    if body == [] || EndsInMagic(pre + body) then body else Image(body)
  }

  /** Closing gives the image exactly where there is something without a trailer, and once is enough. */
  lemma ClosedOnce(pre: seq<byte>, body: seq<byte>)
    ensures Closed(pre, body) == Image(body) <==> body != [] && !EndsInMagic(pre + body)
    ensures Closed(pre, body) == body <==> body == [] || EndsInMagic(pre + body)
    ensures Closed(pre, Closed(pre, body)) == Closed(pre, body)
  {
    hide Trailer;
    ImageEnds(pre, body);
  }

  function Append(pre: seq<byte>, section: seq<byte>, params: seq<byte>): (after: seq<byte>)
    requires params != [] && EndsInMagic(pre + section) ==> |section| >= TRAILER_SIZE
  {
    if params == [] then section else Closed(pre, Stripped(pre, section) + params)
  }

  /** A run of appends; none when one would strip more than there is. */
  function AppendAll(pre: seq<byte>, section: seq<byte>, ps: seq<seq<byte>>): (after: Option<seq<byte>>)
    decreases |ps|
  {
    if ps == [] then Some(section)
    else if ps[0] != [] && EndsInMagic(pre + section) && |section| < TRAILER_SIZE then None
    else AppendAll(pre, Append(pre, section, ps[0]), ps[1..])
  }

  /** No parameters are added that make the text end in the magic. */
  predicate NeverEnds(pre: seq<byte>, body: seq<byte>, ps: seq<seq<byte>>)
    decreases |ps|
  {
    ps == [] || ((ps[0] != [] ==> !EndsInMagic(pre + (body + ps[0]))) && NeverEnds(pre, body + ps[0], ps[1..]))
  }

  lemma AppendToImage(pre: seq<byte>, body: seq<byte>, p: seq<byte>)
    ensures EndsInMagic(pre + Image(body))
    ensures Append(pre, Image(body), p) ==
            if p != [] && EndsInMagic(pre + (body + p)) then body + p else Image(body + p)
  {
    hide Trailer;
    ImageEnds(pre, body);
    assert Image(body)[..|body|] == body;
    assert body + [] == body;
  }

  /** Once the text ended in the magic, the section stays shorter than it should be. */
  lemma {:induction false} DeficitStays(pre: seq<byte>, section: seq<byte>, ps: seq<seq<byte>>, due: nat)
    requires EndsInMagic(pre + section) && |section| <= due
    ensures var r := AppendAll(pre, section, ps); r.Some? ==> |r.value| <= due + |Concat(ps)|
    decreases |ps|
  {
    hide Trailer, EndsInMagic;
    if ps != [] && (ps[0] == [] || |section| >= TRAILER_SIZE) {
      var next := Append(pre, section, ps[0]);
      if ps[0] != [] {
        ImageEnds(pre, Stripped(pre, section) + ps[0]);
      }
      DeficitStays(pre, next, ps[1..], due + |ps[0]|);
    }
  }

  /** A run of appends to an image gives the image of everything exactly when the text never ends in the magic. */
  lemma {:induction false} AppendAllIff(pre: seq<byte>, body: seq<byte>, ps: seq<seq<byte>>)
    ensures AppendAll(pre, Image(body), ps) == Some(Image(body + Concat(ps))) <==> NeverEnds(pre, body, ps)
    decreases |ps|
  {
    hide Image, EndsInMagic, Append;
    if ps == [] {
      assert body + [] == body;
    } else {
      AppendToImage(pre, body, ps[0]);
      assert body + Concat(ps) == body + ps[0] + Concat(ps[1..]);
      if ps[0] != [] && EndsInMagic(pre + (body + ps[0])) {
        DeficitStays(pre, body + ps[0], ps[1..], |body + ps[0]|);
      } else {
        AppendAllIff(pre, body + ps[0], ps[1..]);
      }
    }
  }

  /**
   * A run on a section that has no trailer yet gives the image of everything exactly when something is appended, the
   * section does not seem to have a trailer, and the text never ends in the magic afterwards.
   */
  lemma {:induction false} RawAppendAllIff(pre: seq<byte>, body: seq<byte>, ps: seq<seq<byte>>)
    ensures AppendAll(pre, body, ps) == Some(Image(body + Concat(ps))) <==>
            Concat(ps) != [] && !EndsInMagic(pre + body) && NeverEnds(pre, body, ps)
    decreases |ps|
  {
    hide Image, EndsInMagic, Append;
    if ps == [] {
      assert body + [] == body;
    } else if EndsInMagic(pre + body) {
      DeficitStays(pre, body, ps, |body|);
    } else {
      var p := ps[0];
      AppendToRaw(pre, body, p);
      assert body + Concat(ps) == body + p + Concat(ps[1..]);
      if p == [] {
        assert body + p == body && Concat(ps) == Concat(ps[1..]);
        RawAppendAllIff(pre, body, ps[1..]);
      } else if EndsInMagic(pre + (body + p)) {
        DeficitStays(pre, body + p, ps[1..], |body + p|);
      } else {
        AppendAllIff(pre, body + p, ps[1..]);
      }
    }
  }

  lemma AppendToRaw(pre: seq<byte>, body: seq<byte>, p: seq<byte>)
    requires !EndsInMagic(pre + body)
    ensures Append(pre, body, p) ==
            if p == [] then body else if EndsInMagic(pre + (body + p)) then body + p else Image(body + p)
  {
    hide Image, EndsInMagic;
  }

  /** For any start, with or without a trailer: exactly when libxbc leaves what the builder leaves. */
  lemma WritersAgreeIff(pre: seq<byte>, section: seq<byte>, body: seq<byte>, ps: seq<seq<byte>>)
    requires section == body || section == Image(body)
    ensures AppendAll(pre, section, ps) == Some(Image(body + Concat(ps))) <==>
            && NeverEnds(pre, body, ps)
            && (section == Image(body) || (Concat(ps) != [] && !EndsInMagic(pre + body)))
  {
    hide Image, EndsInMagic, AppendAll, NeverEnds, Concat;
    AppendAllIff(pre, body, ps);
    RawAppendAllIff(pre, body, ps);
  }

  /** Of a run of empty appends nothing is seen. */
  lemma {:induction false} NothingAppended(pre: seq<byte>, section: seq<byte>, ps: seq<seq<byte>>)
    requires Concat(ps) == []
    ensures AppendAll(pre, section, ps) == Some(section)
    decreases |ps|
  {
    hide EndsInMagic, Image;
    if ps != [] {
      assert |Concat(ps)| == |ps[0]| + |Concat(ps[1..])|;
      NothingAppended(pre, section, ps[1..]);
    }
  }

  /** The parameters `magic` by themselves are taken for a trailer: the writers differ from then on. */
  lemma MagicIsLost(pre: seq<byte>, body: seq<byte>)
    ensures EndsInMagic(pre + (body + MAGIC))
    ensures Append(pre, Image(body), MAGIC) == body + MAGIC != Image(body + MAGIC)
    ensures AppendAll(pre, Image(body), [MAGIC]) != Some(Image(body + Concat([MAGIC])))
  {
    hide Image;
    assert pre + (body + MAGIC) == (pre + body) + MAGIC;
    AppendToImage(pre, body, MAGIC);
    assert Concat([MAGIC]) == MAGIC + Concat([MAGIC][1..]) == MAGIC;
  }

  // ----- Room --------------------------------------------------------------------------------

  /** The size of a section, with the trailer that it has or will get. */
  function Reserved(pre: seq<byte>, section: seq<byte>): nat {
    |section| + if EndsInMagic(pre + section) then 0 else TRAILER_SIZE
  }

  /** An append needs no more than the parameters. */
  lemma AppendReserves(pre: seq<byte>, section: seq<byte>, p: seq<byte>)
    requires p != [] && EndsInMagic(pre + section) ==> |section| >= TRAILER_SIZE
    ensures Reserved(pre, Append(pre, section, p)) <= Reserved(pre, section) + |p|
  {
    hide EndsInMagic, Image;
    if p != [] {
      ImageEnds(pre, Stripped(pre, section) + p);
    }
  }

  lemma {:induction false} AppendAllSnoc(pre: seq<byte>, section: seq<byte>, ps: seq<seq<byte>>, p: seq<byte>)
    ensures var r := AppendAll(pre, section, ps);
            AppendAll(pre, section, ps + [p]) ==
            if r.None? || (p != [] && EndsInMagic(pre + r.value) && |r.value| < TRAILER_SIZE) then None
            else Some(Append(pre, r.value, p))
    decreases |ps|
  {
    hide EndsInMagic, Append, Image;
    if ps == [] {
      assert ps + [p] == [p] && [p][1..] == [];
    } else {
      assert (ps + [p])[0] == ps[0] && (ps + [p])[1..] == ps[1..] + [p];
      if !(ps[0] != [] && EndsInMagic(pre + section) && |section| < TRAILER_SIZE) {
        AppendAllSnoc(pre, Append(pre, section, ps[0]), ps[1..], p);
      }
    }
  }

  lemma {:induction false} AppendAllPrefix(pre: seq<byte>, section: seq<byte>, ps: seq<seq<byte>>, k: nat)
    requires k <= |ps| && AppendAll(pre, section, ps).Some?
    ensures AppendAll(pre, section, ps[..k]).Some?
    decreases |ps|
  {
    hide EndsInMagic, Append, Image;
    if k > 0 {
      assert ps[..k][1..] == ps[1..][..k - 1];
      AppendAllPrefix(pre, Append(pre, section, ps[0]), ps[1..], k - 1);
    }
  }
}
