/**
 The pool of network transmit frames.  A frame is written only while the firmware does not own
 it; the firmware owns a frame from the moment it accepts it for transmission until it hands it
 back as recycled or is shut down.  A frame handed back to somebody else never returns to us.
 */
module TxPool {
  import opened Basics

  /** The address of a frame; the pool's frames are all different, and none is null. */
  type Frame = int

  ghost predicate Pool(frames: seq<Frame>) {
    && frames != []
    && (forall i :: 0 <= i < |frames| ==> frames[i] != 0)
    && (forall i, j :: 0 <= i < j < |frames| ==> frames[i] != frames[j])
  }

  // ----- The protocol as a state machine -----------------------------------------------------

  /** `owned` frames are with the firmware; of those, `lost` ones have gone to somebody else for good. */
  datatype State = State(curr: nat, owned: set<Frame>, lost: set<Frame>)

  const START := State(0, {}, {})

  /** What asking the firmware for a recycled buffer gives: an error, or an address (null for none). */
  datatype Status = Error | Recycled(ptr: Frame)

  datatype Event =
    | Send(status: Status, accepted: bool)
    | Hijack(frame: Frame)
    | Reset

  /** The frame to write next, and the new `curr`; nothing if none can be had. */
  function Take(frames: seq<Frame>, curr: nat, status: Status): Option<(Frame, nat)> {
    if status.Recycled? && status.ptr in frames then Some((status.ptr, curr))
    else if curr < |frames| then Some((frames[curr], curr + 1))
    else None
  }

  /** The firmware hands back only what it owns and has not given away. */
  predicate Legal(frames: seq<Frame>, s: State, e: Event) {
    match e
    case Send(status, _) => status.Recycled? && status.ptr in frames ==> status.ptr in s.owned && status.ptr !in s.lost
    case Hijack(frame) => frame in s.owned
    case Reset => true
  }

  function AfterStatus(s: State, status: Status): State {
    if status.Recycled? then s.(owned := s.owned - {status.ptr}) else s
  }

  function Next(frames: seq<Frame>, s: State, e: Event): State {
    match e
    case Send(status, accepted) =>
      (match Take(frames, s.curr, status)
       case None => s
       case Some((frame, curr)) =>
         var s' := AfterStatus(s, status);
         State(curr, if accepted then s'.owned + {frame} else s'.owned, s'.lost))
    case Hijack(frame) => s.(lost := s.lost + {frame})
    case Reset => START
  }

  /** A frame that is handed out for writing is not the firmware's. */
  predicate WritesSafely(frames: seq<Frame>, s: State, e: Event) {
    e.Send? && Take(frames, s.curr, e.status).Some? ==>
      Take(frames, s.curr, e.status).value.0 !in AfterStatus(s, e.status).owned
  }

  /** Whatever the firmware owns was taken from the front of the pool. */
  ghost predicate Inv(frames: seq<Frame>, s: State) {
    && s.curr <= |frames|
    && (forall f :: f in s.owned ==> f in frames[..s.curr])
  }

  lemma FreshFrame(frames: seq<Frame>, curr: nat)
    requires Pool(frames) && curr < |frames|
    ensures frames[curr] !in frames[..curr]
    ensures forall f :: f in frames[..curr] || f == frames[curr] <==> f in frames[..curr + 1]
  {
    assert frames[..curr + 1] == frames[..curr] + [frames[curr]];
  }

  lemma StepIsSafe(frames: seq<Frame>, s: State, e: Event)
    requires Pool(frames) && Inv(frames, s) && Legal(frames, s, e)
    ensures WritesSafely(frames, s, e) && Inv(frames, Next(frames, s, e))
  {
    if s.curr < |frames| {
      FreshFrame(frames, s.curr);
    }
  }

  function Run(frames: seq<Frame>, es: seq<Event>): State
    decreases |es|
  {
    if es == [] then START else Next(frames, Run(frames, es[..|es| - 1]), es[|es| - 1])
  }

  ghost predicate LegalRun(frames: seq<Frame>, es: seq<Event>) {
    forall i :: 0 <= i < |es| ==> Legal(frames, Run(frames, es[..i]), es[i])
  }

  /** In every run, whatever the firmware does, no frame is written while it owns it. */
  lemma {:induction false} RunIsSafe(frames: seq<Frame>, es: seq<Event>)
    requires Pool(frames) && LegalRun(frames, es)
    ensures Inv(frames, Run(frames, es))
    ensures forall i :: 0 <= i < |es| ==> WritesSafely(frames, Run(frames, es[..i]), es[i])
    decreases |es|
  {
    hide Legal, Next, WritesSafely;
    if es != [] {
      var init := es[..|es| - 1];
      forall i | 0 <= i < |init| ensures init[..i] == es[..i] && init[i] == es[i] {
      }
      RunIsSafe(frames, init);
      StepIsSafe(frames, Run(frames, init), es[|es| - 1]);
      forall i | 0 <= i < |es| ensures WritesSafely(frames, Run(frames, es[..i]), es[i]) {
        assert i < |init| ==> WritesSafely(frames, Run(frames, init[..i]), init[i]);
      }
    }
  }

  lemma RunSnoc(frames: seq<Frame>, es: seq<Event>, e: Event)
    ensures Run(frames, es + [e]) == Next(frames, Run(frames, es), e)
  {
    assert (es + [e])[..|es|] == es;
  }

  lemma LegalSnoc(frames: seq<Frame>, es: seq<Event>, e: Event)
    requires LegalRun(frames, es) && Legal(frames, Run(frames, es), e)
    ensures LegalRun(frames, es + [e])
  {
    var es' := es + [e];
    forall i | 0 <= i < |es'| ensures Legal(frames, Run(frames, es'[..i]), es'[i]) {
      if i < |es| {
        assert es'[..i] == es[..i] && es'[i] == es[i];
      } else {
        assert es'[..i] == es;
      }
    }
  }

  lemma LegalPrefix(frames: seq<Frame>, es: seq<Event>, e: Event)
    requires LegalRun(frames, es + [e])
    ensures LegalRun(frames, es) && Legal(frames, Run(frames, es), e)
  {
    var es' := es + [e];
    forall i | 0 <= i < |es| ensures Legal(frames, Run(frames, es[..i]), es[i]) {
      assert es'[..i] == es[..i] && es'[i] == es[i];
    }
    assert es'[..|es|] == es && es'[|es|] == e;
  }

  // ----- How long the pool lasts ---------------------------------------------------------------

  /** The frames drawn from the pool since the last reset: one for every send for which none came back. */
  function Draws(frames: seq<Frame>, es: seq<Event>): nat
    decreases |es|
  {
    if es == [] then 0 else
    var init, e := Draws(frames, es[..|es| - 1]), es[|es| - 1];
    match e
    case Send(status, _) => if status.Recycled? && status.ptr in frames then init else init + 1
    case Hijack(_) => init
    case Reset => 0
  }

  /** The pool is drawn on only by those, and is used up only by as many as it has frames. */
  lemma {:induction false} CurrIsDraws(frames: seq<Frame>, es: seq<Event>)
    ensures Run(frames, es).curr == Min(Draws(frames, es), |frames|)
    decreases |es|
  {
    if es != [] {
      CurrIsDraws(frames, es[..|es| - 1]);
    }
  }

  /** Every frame is accepted, and comes back as soon as the firmware holds `k` of them. */
  ghost predicate KeepsUp(frames: seq<Frame>, es: seq<Event>, k: nat) {
    forall i :: 0 <= i < |es| ==>
      && es[i].Send? && es[i].accepted
      && (|Run(frames, es[..i]).owned| >= k ==> es[i].status.Recycled? && es[i].status.ptr in frames)
  }

  lemma KeptUpStep(frames: seq<Frame>, s: State, e: Event, k: nat)
    requires Pool(frames) && Inv(frames, s) && Legal(frames, s, e) && |s.owned| == s.curr <= k <= |frames|
    requires e.Send? && e.accepted && (|s.owned| >= k ==> e.status.Recycled? && e.status.ptr in frames)
    requires e.status.Recycled? ==> e.status.ptr in frames || e.status.ptr !in s.owned
    ensures var s' := Next(frames, s, e); |s'.owned| == s'.curr <= k
    ensures Take(frames, s.curr, e.status).Some?
  {
    if e.status.Recycled? && e.status.ptr in frames {
      var p := e.status.ptr;
      assert s.owned - {p} + {p} == s.owned;
    } else {
      var f := frames[s.curr];
      FreshFrame(frames, s.curr);
      assert f !in s.owned;
      assert e.status.Recycled? ==> s.owned - {e.status.ptr} == s.owned;
      assert |s.owned + {f}| == |s.owned| + 1;
    }
  }

  /** The firmware then never holds more than `k` frames, and every one of any number of sends finds a frame. */
  lemma {:induction false} PoolLasts(frames: seq<Frame>, es: seq<Event>, k: nat)
    requires Pool(frames) && LegalRun(frames, es) && KeepsUp(frames, es, k) && 1 <= k <= |frames|
    ensures |Run(frames, es).owned| == Run(frames, es).curr <= k
    ensures forall i :: 0 <= i < |es| ==> Take(frames, Run(frames, es[..i]).curr, es[i].status).Some?
    decreases |es|
  {
    hide Take, Next, Legal;
    if es != [] {
      var init, last := es[..|es| - 1], es[|es| - 1];
      assert es == init + [last];
      LegalPrefix(frames, init, last);
      forall i | 0 <= i < |init| ensures init[..i] == es[..i] && init[i] == es[i] {
      }
      PoolLasts(frames, init, k);
      RunIsSafe(frames, init);
      ForeignIsNotOwned(frames, Run(frames, init), last);
      KeptUpStep(frames, Run(frames, init), last, k);
      forall i | 0 <= i < |es| ensures Take(frames, Run(frames, es[..i]).curr, es[i].status).Some? {
        assert i < |init| ==> Take(frames, Run(frames, init[..i]).curr, init[i].status).Some?;
      }
    }
  }

  lemma ForeignIsNotOwned(frames: seq<Frame>, s: State, e: Event)
    requires Inv(frames, s) && e.Send?
    ensures e.status.Recycled? ==> e.status.ptr in frames || e.status.ptr !in s.owned
  {
  }

  // ----- The device --------------------------------------------------------------------------

  const FRAME_SIZE := 1536

  /**
   The device together with the firmware it talks to, whose part is played by `fw`. What happens between the two is
   recorded in `events`, and is always a legal run of the protocol.
   */
  class Device {
    const frames: seq<Frame>
    var curr: nat
    var fw: State
    var contents: map<Frame, seq<int>>
    /** What was passed to the firmware for transmission, in order. */
    var sent: seq<(Frame, seq<int>)>
    ghost var events: seq<Event>

    ghost predicate Valid()
      reads this
    {
      && Pool(frames) && curr == fw.curr
      && fw == Run(frames, events) && LegalRun(frames, events)
    }

    constructor (frames: seq<Frame>)
      requires Pool(frames)
      ensures Valid() && this.frames == frames && curr == 0 && fw == START && sent == [] && events == []
    {
      this.frames, curr, fw, contents, sent, events := frames, 0, START, map[], [], [];
    }

    /** Takes down what has happened. */
    ghost method Happens(e: Event)
      requires Pool(frames) && fw == Run(frames, events) && LegalRun(frames, events) && Legal(frames, fw, e)
      modifies this`events
      ensures events == old(events) + [e] && LegalRun(frames, events) && Run(frames, events) == Next(frames, fw, e)
    {
      RunSnoc(frames, events, e);
      LegalSnoc(frames, events, e);
      events := events + [e];
    }

    /** Asks the firmware, which may answer anything legal; it may also give frames away meanwhile. */
    method GetStatus() returns (status: Status)
      requires Valid()
      modifies this`fw, this`events
      ensures Valid() && Legal(frames, fw, Send(status, false)) && old(events) <= events && curr == old(curr)
    {
      var hijacked: Frame := *;
      if hijacked in fw.owned {
        Happens(Hijack(hijacked));
        fw := fw.(lost := fw.lost + {hijacked});
      }
      assert Legal(frames, fw, Send(Error, false));
      status :| Legal(frames, fw, Send(status, false));
    }

    /** The last event was the sending of this frame, whether accepted or not. */
    ghost predicate LastSends(frame: Frame)
      reads this
    {
      && events != []
      && var init, last := events[..|events| - 1], events[|events| - 1];
      && last.Send? && Take(frames, Run(frames, init).curr, last.status) == Some((frame, curr))
    }

    /** The frame has been taken, and is not yet with the firmware. */
    ghost predicate HasTaken(frame: Frame)
      reads this
    {
      LastSends(frame) && !events[|events| - 1].accepted
    }

    /** A frame that may be written: one of the first `curr`, and not the firmware's. */
    lemma TakenIsSafe(frame: Frame)
      requires Valid() && HasTaken(frame)
      ensures curr <= |frames| && frame in frames[..curr] && frame !in fw.owned && frame in frames
    {
      var init, last := events[..|events| - 1], events[|events| - 1];
      RunIsSafe(frames, events);
      assert events == init + [last];
      LegalPrefix(frames, init, last);
      RunIsSafe(frames, init);
      TakesFromFront(frames, Run(frames, init), last);
    }

    /** A frame that comes back is used again; otherwise the next one of the pool is, if there is one. */
    method TryGetBuffer() returns (r: Option<Frame>, ghost status: Status)
      requires Valid()
      modifies this`fw, this`curr, this`events
      ensures Valid() && old(events) < events && events[|events| - 1] == Send(status, false)
      ensures r.Some? ==> HasTaken(r.value)
      ensures if status.Recycled? && status.ptr in frames then r == Some(status.ptr) && curr == old(curr)
              else if old(curr) < |frames| then r == Some(frames[old(curr)]) && curr == old(curr) + 1
              else r == None && curr == old(curr)
    {
      var answer := GetStatus();
      status := answer;
      ghost var before := events;
      Happens(Send(answer, false));
      assert events[..|events| - 1] == before;
      if answer.Recycled? && answer.ptr in frames {
        fw := AfterStatus(fw, answer);
        r := Some(answer.ptr);
      } else if curr < |frames| {
        var res := curr;
        curr := curr + 1;
        fw := AfterStatus(fw, answer).(curr := curr);
        r := Some(frames[res]);
      } else {
        r := None;
      }
    }

    /** Tries for as long as the timeout allows, which may be not at all. */
    method TryUntilTimeout() returns (r: Option<Frame>)
      requires Valid()
      modifies this`fw, this`curr, this`events
      ensures Valid() && old(events) <= events
      ensures r.Some? ==> HasTaken(r.value) && |old(events)| < |events|
    {
      var tries: int :| tries >= 0;
      r := None;
      while tries > 0 && r.None?
        invariant Valid() && old(events) <= events
        invariant r.Some? ==> HasTaken(r.value) && |old(events)| < |events|
      {
        ghost var status;
        r, status := TryGetBuffer();
        tries := tries - 1;
      }
    }

    /** Shuts the network down and starts it again; the program stops dead if that fails. */
    method ResetNetwork()
      requires Valid()
      modifies this`fw, this`curr, this`events
      ensures Valid() && fw == START && events == old(events) + [Reset]
    {
      Happens(Reset);
      curr := 0;
      fw := START;
    }

    /** Fills the frame; writing to a frame the firmware owns would be undefined behaviour. */
    method Fill(frame: Frame, data: seq<int>)
      requires Valid() && frame in frames && |data| <= FRAME_SIZE
      requires frame !in fw.owned
      modifies this`contents
      ensures contents == old(contents)[frame := data]
    {
      contents := contents[frame := data];
    }

    /** A frame that is refused is not the firmware's, but is not used again before the next reset either. */
    method Transmit(frame: Frame) returns (ok: bool)
      requires Valid() && HasTaken(frame) && frame in contents
      modifies this`fw, this`sent, this`events
      ensures Valid() && sent == old(sent) + [(frame, contents[frame])]
      ensures fw == old(fw).(owned := if ok then old(fw).owned + {frame} else old(fw).owned)
      ensures LastSends(frame) && |events| == |old(events)|
      ensures var n := |events| - 1; events[..n] == old(events)[..n] && events[n] == old(events)[n].(accepted := ok)
    {
      hide Legal, LegalRun, Take;
      ok := *;
      sent := sent + [(frame, contents[frame])];
      ghost var init, last := events[..|events| - 1], events[|events| - 1];
      assert events == init + [last];
      LegalPrefix(frames, init, last);
      RunSnoc(frames, init, last);
      RunSnoc(frames, init, last.(accepted := ok));
      LegalSnoc(frames, init, last.(accepted := ok));
      events := init + [last.(accepted := ok)];
      if ok {
        fw := fw.(owned := fw.owned + {frame});
      }
    }

    /**
     Sends one packet: what happens continues the run of the protocol, and ends in sending the frame that holds the
     data; `patience` bounds the failures and timeouts the caller will see.
     */
    method Consume(data: seq<int>, patience: nat) returns (frame: Option<Frame>)
      requires Valid() && |data| <= FRAME_SIZE
      modifies this
      ensures Valid() && old(events) <= events
      ensures frame.Some? ==> frame.value in frames && frame.value in contents && contents[frame.value] == data
      ensures sent == old(sent) + if frame.Some? then [(frame.value, data)] else []
      ensures frame.Some? ==> LastSends(frame.value)
      ensures frame.None? ==> events == old(events) || events[|events| - 1] == Reset
    {
      hide Run, LegalRun, Legal, Take, Pool, Next, Inv;
      frame := None;
      var left := patience;
      while frame.None? && left > 0
        invariant Valid() && sent == old(sent) && old(events) <= events
        invariant frame.Some? ==> HasTaken(frame.value) && |old(events)| < |events|
        invariant frame.None? ==> events == old(events) || events[|events| - 1] == Reset
      {
        left := left - 1;
        var timerFails: bool := *;
        if !timerFails {
          frame := TryUntilTimeout();
          if frame.None? {
            ResetNetwork();
          }
        }
      }
      if frame.Some? {
        TakenIsSafe(frame.value);
        Fill(frame.value, data);
        ghost var before := events;
        var ok := Transmit(frame.value);
        assert old(events) <= before[..|before| - 1];
      }
    }
  }

  lemma TakesFromFront(frames: seq<Frame>, s: State, e: Event)
    requires Pool(frames) && Inv(frames, s) && e.Send? && Legal(frames, s, e) && Take(frames, s.curr, e.status).Some?
    ensures var (frame, curr) := Take(frames, s.curr, e.status).value;
      frame in frames && curr <= |frames| && frame in frames[..curr]
      && (!e.accepted ==> frame !in Next(frames, s, e).owned)
  {
    StepIsSafe(frames, s, e);
    if s.curr < |frames| {
      FreshFrame(frames, s.curr);
    }
  }
}
