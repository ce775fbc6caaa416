/** Cooperative scheduling: executors that poll futures, and combinators of two futures. */
module Executor {
  import opened Basics

  /** A future that is ready at its `left`-th poll from now; the box that holds it is known by its `id`. */
  datatype Task = Task(id: nat, left: nat)

  predicate Distinct(tasks: seq<Task>) {
    forall i, j :: 0 <= i < j < |tasks| ==> tasks[i].id != tasks[j].id
  }

  predicate AllPending(tasks: seq<Task>) {
    forall i :: 0 <= i < |tasks| ==> tasks[i].left > 0
  }

  function Ids(tasks: seq<Task>): set<nat> {
    set i | 0 <= i < |tasks| :: tasks[i].id
  }

  /** The polls still needed by the future with this id; 0 when there is none. */
  function Left(tasks: seq<Task>, id: nat): nat {
    if tasks == [] then 0
    else if tasks[0].id == id then tasks[0].left
    else Left(tasks[1..], id)
  }

  lemma {:induction false} LeftOf(tasks: seq<Task>, i: nat)
    requires Distinct(tasks) && i < |tasks|
    ensures Left(tasks, tasks[i].id) == tasks[i].left
  {
    if i > 0 {
      LeftOf(tasks[1..], i - 1);
    }
  }

  lemma {:induction false} LeftOfNone(tasks: seq<Task>, id: nat)
    requires id !in Ids(tasks)
    ensures Left(tasks, id) == 0
  {
    if tasks != [] {
      assert tasks[0].id in Ids(tasks);
      assert Ids(tasks[1..]) <= Ids(tasks);
      LeftOfNone(tasks[1..], id);
    }
  }

  /** How often the future with this id was polled. */
  function Polls(log: seq<nat>, id: nat): nat {
    multiset(log)[id]
  }

  /** The most polls that any task still needs. */
  function Longest(tasks: seq<Task>): nat {
    if tasks == [] then 0
    else if tasks[0].left > Longest(tasks[1..]) then tasks[0].left
    else Longest(tasks[1..])
  }

  lemma {:induction false} LongestBounds(tasks: seq<Task>)
    ensures forall i :: 0 <= i < |tasks| ==> tasks[i].left <= Longest(tasks)
    ensures tasks != [] ==> exists i :: 0 <= i < |tasks| && tasks[i].left == Longest(tasks)
  {
    if tasks != [] {
      LongestBounds(tasks[1..]);
      if tasks[0].left <= Longest(tasks[1..]) && |tasks| > 1 {
        var i :| 0 <= i < |tasks[1..]| && tasks[1..][i].left == Longest(tasks[1..]);
        assert tasks[i + 1].left == Longest(tasks);
      } else {
        assert tasks[0].left == Longest(tasks);
      }
    }
  }

  /** What a round leaves: one poll less for every task, and none of those that became ready. */
  ghost predicate Stepped(before: seq<Task>, after: seq<Task>) {
    && Distinct(after) && AllPending(after)
    && forall id :: Left(after, id) == if Left(before, id) == 0 then 0 else Left(before, id) - 1
  }

  /** The vector without the element at `i`, in whose place the last one goes. */
  function SwapRemove<T>(s: seq<T>, i: nat): (r: seq<T>)
    requires i < |s|
    ensures |r| == |s| - 1
  {
    s[i := s[|s| - 1]][..|s| - 1]
  }

  lemma {:induction false} PushLeft(tasks: seq<Task>, task: Task)
    requires task.id !in Ids(tasks)
    ensures forall id :: Left(tasks + [task], id) == if id == task.id then task.left else Left(tasks, id)
  {
    if tasks == [] {
      assert [] + [task] == [task];
    } else {
      assert tasks[0].id in Ids(tasks);
      assert Ids(tasks[1..]) <= Ids(tasks);
      PushLeft(tasks[1..], task);
      assert (tasks + [task])[1..] == tasks[1..] + [task];
    }
  }

  lemma LeftIf(tasks: seq<Task>, other: seq<Task>, id: nat)
    requires Distinct(tasks) && Distinct(other)
    requires forall i :: 0 <= i < |tasks| && tasks[i].id == id ==> tasks[i] in other
    requires forall i :: 0 <= i < |other| && other[i].id == id ==> other[i] in tasks
    ensures Left(tasks, id) == Left(other, id)
  {
    if i :| 0 <= i < |tasks| && tasks[i].id == id {
      var j :| 0 <= j < |other| && other[j] == tasks[i];
      LeftOf(tasks, i);
      LeftOf(other, j);
    } else {
      LeftOfNone(tasks, id);
      LeftOfNone(other, id);
    }
  }

  lemma RemoveDistinct(tasks: seq<Task>, i: nat)
    requires Distinct(tasks) && i < |tasks|
    ensures Distinct(SwapRemove(tasks, i))
    ensures tasks[i].id !in Ids(SwapRemove(tasks, i))
    ensures forall k :: 0 <= k < |tasks| && k != i ==> tasks[k] in SwapRemove(tasks, i)
    ensures forall t :: t in SwapRemove(tasks, i) ==> t in tasks
  {
    var r, n := SwapRemove(tasks, i), |tasks| - 1;
    assert forall k :: 0 <= k < n ==> r[k] == if k == i then tasks[n] else tasks[k];
    forall k | 0 <= k < |tasks| && k != i ensures tasks[k] in r {
      assert r[if k == n then i else k] == tasks[k];
    }
  }

  lemma RemoveLeft(tasks: seq<Task>, i: nat)
    requires Distinct(tasks) && i < |tasks|
    ensures var r := SwapRemove(tasks, i);
      && Distinct(r)
      && (forall id :: Left(r, id) == if id == tasks[i].id then 0 else Left(tasks, id))
      && Ids(r[i..]) == Ids(tasks[i..]) - {tasks[i].id}
  {
    hide Left, SwapRemove, Ids;
    var r := SwapRemove(tasks, i);
    RemoveDistinct(tasks, i);
    forall id ensures Left(r, id) == if id == tasks[i].id then 0 else Left(tasks, id) {
      if id == tasks[i].id {
        LeftOfNone(r, id);
      } else {
        LeftIf(tasks, r, id);
      }
    }
    RemoveIds(tasks, i);
  }

  lemma RemoveIds(tasks: seq<Task>, i: nat)
    requires Distinct(tasks) && i < |tasks|
    ensures Ids(SwapRemove(tasks, i)[i..]) == Ids(tasks[i..]) - {tasks[i].id}
  {
    var r, n := SwapRemove(tasks, i), |tasks| - 1;
    assert forall k :: i <= k < n ==> r[k] == if k == i then tasks[n] else tasks[k];
    forall id | id in Ids(tasks[i..]) - {tasks[i].id} ensures id in Ids(r[i..]) {
      var k :| 0 <= k < |tasks[i..]| && tasks[i..][k].id == id;
      assert r[i..][if i + k == n then 0 else k].id == id;
    }
    forall id | id in Ids(r[i..]) ensures id in Ids(tasks[i..]) - {tasks[i].id} {
      var k :| 0 <= k < |r[i..]| && r[i..][k].id == id;
      assert tasks[i..][if k == 0 then n - i else k].id == id;
    }
  }

  lemma UpdateLeft(tasks: seq<Task>, i: nat, left: nat)
    requires Distinct(tasks) && i < |tasks|
    ensures var r := tasks[i := tasks[i].(left := left)];
      && Distinct(r)
      && (forall id :: Left(r, id) == if id == tasks[i].id then left else Left(tasks, id))
      && Ids(r[i + 1..]) == Ids(tasks[i..]) - {tasks[i].id}
  {
    var r := tasks[i := tasks[i].(left := left)];
    forall id ensures Left(r, id) == if id == tasks[i].id then left else Left(tasks, id) {
      if id == tasks[i].id {
        LeftOf(r, i);
      } else {
        assert forall k :: 0 <= k < |r| && k != i ==> r[k] == tasks[k];
        LeftIf(tasks, r, id);
      }
    }
    assert r[i + 1..] == tasks[i..][1..];
    assert tasks[i..] == [tasks[i]] + tasks[i..][1..];
  }

  /** In the middle of a round: those from `idx` on are still to be polled, all others have been. */
  ghost predicate Midway(before: seq<Task>, log0: seq<nat>, tasks: seq<Task>, log: seq<nat>, idx: nat) {
    && idx <= |tasks| && Distinct(tasks) && AllPending(tasks)
    && |log| - |log0| + |tasks| - idx == |before|
    && forall id :: Tallies(before, log0, tasks, log, idx, id)
  }

  predicate Tallies(before: seq<Task>, log0: seq<nat>, tasks: seq<Task>, log: seq<nat>, idx: nat, id: nat)
    requires idx <= |tasks|
  {
    var polls := if id in Ids(tasks[idx..]) || Left(before, id) == 0 then 0 else 1;
    Left(tasks, id) == Left(before, id) - polls && Polls(log, id) == Polls(log0, id) + polls
  }

  class CyclicExecutor {
    var tasks: seq<Task>
    ghost var log: seq<nat>

    ghost predicate Valid()
      reads this
    {
      Distinct(tasks) && AllPending(tasks)
    }

    constructor ()
      ensures Valid() && tasks == [] && log == []
    {
      tasks := [];
      log := [];
    }

    /** A new task is polled once, and kept unless it is ready. */
    method SpawnTask(task: Task)
      requires Valid() && task.left > 0 && task.id !in Ids(tasks)
      modifies this
      ensures Valid() && log == old(log) + [task.id]
      ensures forall id :: Left(tasks, id) == if id == task.id then task.left - 1 else Left(old(tasks), id)
    {
      log := log + [task.id];
      LeftOfNone(tasks, task.id);
      if task.left > 1 {
        assert forall i :: 0 <= i < |tasks| ==> tasks[i].id in Ids(tasks);
        PushLeft(tasks, task.(left := task.left - 1));
        tasks := tasks + [task.(left := task.left - 1)];
      }
    }

    /** Polls every task exactly once, and removes those that are ready. */
    method Poll()
      requires Valid()
      modifies this
      ensures Valid() && Stepped(old(tasks), tasks)
      ensures |log| == |old(log)| + |old(tasks)|
      ensures forall id :: Polls(log, id) == Polls(old(log), id) + if Left(old(tasks), id) > 0 then 1 else 0
    {
      ghost var before, log0 := tasks, log;
      var idx := 0;
      Start(before, log0);
      while idx < |tasks|
        invariant Midway(before, log0, tasks, log, idx)
        decreases |tasks| - idx
      {
        var task := tasks[idx];
        PollOne(before, log0, tasks, log, idx);
        log := log + [task.id];
        if task.left == 1 {
          tasks := SwapRemove(tasks, idx);
        } else {
          tasks := tasks[idx := task.(left := task.left - 1)];
          idx := idx + 1;
        }
      }
      Finish(before, log0, tasks, log);
    }

    /** Polls until all tasks are ready: each as often as it needs, in as many rounds as the longest needs. */
    method Run() returns (ghost rounds: nat)
      requires Valid()
      modifies this
      ensures Valid() && tasks == [] && rounds == Longest(old(tasks))
      ensures forall id :: Polls(log, id) == Polls(old(log), id) + Left(old(tasks), id)
    {
      rounds := 0;
      ghost var before, log0 := tasks, log;
      while tasks != []
        invariant Valid() && rounds + Longest(tasks) == Longest(before)
        invariant forall id :: Polls(log, id) + Left(tasks, id) == Polls(log0, id) + Left(before, id)
        decreases Longest(tasks)
      {
        ghost var now := tasks;
        LongestBounds(tasks);
        Poll();
        LongestStepped(now, tasks);
        rounds := rounds + 1;
      }
    }

  }

  lemma Start(before: seq<Task>, log0: seq<nat>)
    requires Distinct(before) && AllPending(before)
    ensures Midway(before, log0, before, log0, 0)
  {
    assert before[0..] == before;
    forall id ensures Tallies(before, log0, before, log0, 0, id) {
      if id !in Ids(before) {
        LeftOfNone(before, id);
      }
    }
  }

  lemma PollOne(before: seq<Task>, log0: seq<nat>, tasks: seq<Task>, log: seq<nat>, idx: nat)
    requires Midway(before, log0, tasks, log, idx) && idx < |tasks|
    ensures var task := tasks[idx];
      if task.left == 1 then Midway(before, log0, SwapRemove(tasks, idx), log + [task.id], idx)
      else Midway(before, log0, tasks[idx := task.(left := task.left - 1)], log + [task.id], idx + 1)
  {
    hide Left, Ids, Polls, SwapRemove, Distinct;
    var task := tasks[idx];
    var after, next :=
      if task.left == 1 then SwapRemove(tasks, idx) else tasks[idx := task.(left := task.left - 1)],
      if task.left == 1 then idx else idx + 1;
    if task.left == 1 {
      RemoveLeft(tasks, idx);
      RemovePending(tasks, idx);
    } else {
      UpdateLeft(tasks, idx, task.left - 1);
    }
    LeftOf(tasks, idx);
    assert task.id in Ids(tasks[idx..]) by { FirstId(tasks, idx); }
    forall id ensures Tallies(before, log0, after, log + [task.id], next, id) {
      assert Tallies(before, log0, tasks, log, idx, id);
      OneMore(log, task.id, id);
    }
  }

  lemma FirstId(tasks: seq<Task>, i: nat)
    requires i < |tasks|
    ensures tasks[i].id in Ids(tasks[i..])
  {
    assert tasks[i..][0] == tasks[i];
  }

  lemma OneMore(log: seq<nat>, polled: nat, id: nat)
    ensures Polls(log + [polled], id) == Polls(log, id) + if id == polled then 1 else 0
  {
  }

  lemma RemovePending(tasks: seq<Task>, i: nat)
    requires AllPending(tasks) && i < |tasks|
    ensures AllPending(SwapRemove(tasks, i))
  {
  }

  lemma Finish(before: seq<Task>, log0: seq<nat>, tasks: seq<Task>, log: seq<nat>)
    requires Midway(before, log0, tasks, log, |tasks|)
    ensures Stepped(before, tasks)
    ensures forall id :: Polls(log, id) == Polls(log0, id) + if Left(before, id) > 0 then 1 else 0
  {
    forall id
      ensures Left(tasks, id) == if Left(before, id) == 0 then 0 else Left(before, id) - 1
      ensures Polls(log, id) == Polls(log0, id) + if Left(before, id) > 0 then 1 else 0
    {
      assert Tallies(before, log0, tasks, log, |tasks|, id);
    }
  }

  /** A round brings the end of the longest task nearer by one. */
  lemma LongestStepped(before: seq<Task>, after: seq<Task>)
    requires Distinct(before) && before != [] && AllPending(before) && Stepped(before, after)
    ensures Longest(after) == Longest(before) - 1
  {
    LongestBounds(before);
    LongestBounds(after);
    var i :| 0 <= i < |before| && before[i].left == Longest(before);
    LeftOf(before, i);
    LeftBelow(after, before[i].id);
    if after != [] {
      var j :| 0 <= j < |after| && after[j].left == Longest(after);
      LeftOf(after, j);
      LeftBelow(before, after[j].id);
    }
  }

  lemma {:induction false} LeftBelow(tasks: seq<Task>, id: nat)
    ensures Left(tasks, id) <= Longest(tasks)
  {
    if tasks != [] {
      LeftBelow(tasks[1..], id);
    }
  }

  // ----- Futures in a vector, visited from the back --------------------------------------------

  /** A callback: what it remembers, and from that and an element what it makes of both and whether to remove it. */
  type Visit<!S, !T> = (S, T) -> (S, T, bool)

  /** What a visit of all elements, last first, leaves behind: the callback's memory and the elements kept. */
  function Visited<S, T>(st: S, s: seq<T>, visit: Visit<S, T>): (S, multiset<T>)
    decreases |s|
  {
    if s == [] then (st, multiset{})
    else
      var (st', f, remove) := visit(st, s[|s| - 1]);
      var (end, kept) := Visited(st', s[..|s| - 1], visit);
      (end, (if remove then multiset{} else multiset{f}) + kept)
  }

  /** With a callback that only looks, exactly the elements it says are gone. */
  lemma {:induction false} VisitedKeeps<T>(s: seq<T>, gone: T -> bool, x: T)
    ensures Visited((), s, (st, t) => (st, t, gone(t))).1[x] == if gone(x) then 0 else multiset(s)[x]
    decreases |s|
  {
    if s != [] {
      VisitedKeeps(s[..|s| - 1], gone, x);
      assert s == s[..|s| - 1] + [s[|s| - 1]];
    }
  }

  /** A callback that remembers what it has seen has seen all, last first. */
  lemma {:induction false} VisitedInOrder<T>(seen: seq<T>, s: seq<T>)
    ensures Visited(seen, s, (st, t) => (st + [t], t, false)) == (seen + Reversed(s), multiset(s))
    decreases |s|
  {
    if s == [] {
      assert seen + Reversed(s) == seen;
    } else {
      var init, last := s[..|s| - 1], s[|s| - 1];
      VisitedInOrder(seen + [last], init);
      assert s == init + [last];
      ReversedSnoc(init, last);
      assert seen + [last] + Reversed(init) == seen + ([last] + Reversed(init));
      assert multiset(s) == multiset{last} + multiset(init);
    }
  }

  class VecPinFut<T(==)> {
    var futures: seq<T>

    constructor ()
      ensures futures == []
    {
      futures := [];
    }

    method AddWith(f: T)
      modifies this
      ensures futures == old(futures) + [f]
    {
      futures := futures + [f];
    }

    /** Visits every element exactly once, last first, and removes those that the visit says. */
    method ForEachRemoveIf<S>(start: S, visit: Visit<S, T>) returns (end: S, ghost visited: seq<T>)
      modifies this
      ensures visited == Reversed(old(futures))
      ensures Visited(start, old(futures), visit) == (end, multiset(futures))
    {
      hide SwapRemove, Visited, Reversed, Continues;
      visited, end := [], start;
      ghost var before := futures;
      var idx := |futures|;
      assert before[..idx] == before;
      Begins(Visited(start, before, visit), futures[idx..]);
      while idx > 0
        invariant 0 <= idx <= |futures| && idx <= |before| && futures[..idx] == before[..idx]
        invariant visited + Reversed(before[..idx]) == Reversed(before)
        invariant Continues(Visited(end, before[..idx], visit), multiset(futures[idx..]), Visited(start, before, visit))
      {
        idx := idx - 1;
        var (st, f, remove) := visit(end, futures[idx]);
        visited := visited + [futures[idx]];
        StepContinues(end, before, idx, visit, multiset(futures[idx + 1..]), Visited(start, before, visit));
        Removed(futures, idx, f);
        end := st;
        futures := futures[idx := f];
        if remove {
          futures := SwapRemove(futures, idx);
        }
      }
      assert futures[0..] == futures;
      Ends(end, before[..0], visit, multiset(futures), Visited(start, before, visit));
    }
  }

  /** The rest of a visit, and what has been kept so far, make up the whole. */
  ghost predicate Continues<S, T>(rest: (S, multiset<T>), kept: multiset<T>, whole: (S, multiset<T>)) {
    rest.0 == whole.0 && kept + rest.1 == whole.1
  }

  lemma Begins<S, T>(whole: (S, multiset<T>), tail: seq<T>)
    requires tail == []
    ensures Continues(whole, multiset(tail), whole)
  {
  }

  lemma Ends<S, T>(st: S, s: seq<T>, visit: Visit<S, T>, kept: multiset<T>, whole: (S, multiset<T>))
    requires s == [] && Continues(Visited(st, s, visit), kept, whole)
    ensures whole == (st, kept) && Reversed(s) == []
  {
    assert kept + multiset{} == kept;
  }

  /** One visit more, with the element kept or not. */
  lemma StepContinues<S, T>(st: S, s: seq<T>, i: nat, visit: Visit<S, T>, kept: multiset<T>, whole: (S, multiset<T>))
    requires i < |s| && Continues(Visited(st, s[..i + 1], visit), kept, whole)
    ensures Reversed(s[..i + 1]) == [s[i]] + Reversed(s[..i])
    ensures var (st', f, remove) := visit(st, s[i]);
            Continues(Visited(st', s[..i], visit), if remove then kept else multiset{f} + kept, whole)
  {
    assert s[..i + 1][..i] == s[..i] && s[..i + 1][i] == s[i];
    assert s[..i + 1] == s[..i] + [s[i]];
    ReversedSnoc(s[..i], s[i]);
  }

  lemma Removed<T>(s: seq<T>, i: nat, f: T)
    requires i < |s|
    ensures s[i := f][..i] == s[..i] && SwapRemove(s[i := f], i)[..i] == s[..i]
    ensures multiset(s[i := f][i..]) == multiset{f} + multiset(s[i + 1..])
    ensures multiset(SwapRemove(s[i := f], i)[i..]) == multiset(s[i + 1..])
  {
    var r, n := s[i := f], |s| - 1;
    assert r[i..] == [f] + s[i + 1..];
    if i == n {
      assert SwapRemove(r, i)[i..] == [] == s[i + 1..];
    } else {
      assert SwapRemove(r, i)[i..] == [s[n]] + s[i + 1..n];
      assert s[i + 1..] == s[i + 1..n] + [s[n]];
    }
  }

  // ----- Two futures ---------------------------------------------------------------------------

  /** A future that is ready at its `left`-th poll from now, and then yields `output`. */
  class Countdown<O> {
    var left: nat
    const output: O
    ghost var polls: nat

    constructor (left: nat, output: O)
      ensures this.left == left && this.output == output && polls == 0
    {
      this.left := left;
      this.output := output;
      polls := 0;
    }

    /** A future that has been ready must not be polled again. */
    method Poll() returns (r: Option<O>)
      requires left > 0
      modifies this
      ensures left == old(left) - 1 && polls == old(polls) + 1
      ensures r == if left == 0 then Some(output) else None
    {
      left := left - 1;
      polls := polls + 1;
      r := if left == 0 then Some(output) else None;
    }
  }

  /** Polls both until both are ready, each no further than it needs. */
  method Join<L, R>(lhs: Countdown<L>, rhs: Countdown<R>) returns (l: L, r: R, ghost turns: nat)
    requires lhs.left > 0 && rhs.left > 0 && (lhs as object) != rhs
    modifies lhs, rhs
    ensures l == lhs.output && r == rhs.output
    ensures lhs.left == 0 && lhs.polls == old(lhs.polls) + old(lhs.left)
    ensures rhs.left == 0 && rhs.polls == old(rhs.polls) + old(rhs.left)
    ensures turns + 1 == Max(old(lhs.left), old(rhs.left))
  {
    var outL := lhs.Poll();
    var outR := rhs.Poll();
    turns := 0;
    while outL.None? || outR.None?
      invariant outL == if lhs.left == 0 then Some(lhs.output) else None
      invariant outR == if rhs.left == 0 then Some(rhs.output) else None
      invariant lhs.polls + lhs.left == old(lhs.polls) + old(lhs.left)
      invariant rhs.polls + rhs.left == old(rhs.polls) + old(rhs.left)
      invariant turns + 1 + Max(lhs.left, rhs.left) == Max(old(lhs.left), old(rhs.left))
      decreases lhs.left + rhs.left
    {
      turns := turns + 1;
      if outL.None? {
        outL := lhs.Poll();
      }
      if outR.None? {
        outR := rhs.Poll();
      }
    }
    l, r := outL.value, outR.value;
  }

  /** Polls both until one is ready, and gives what is ready then. */
  method Select<L, R>(lhs: Countdown<L>, rhs: Countdown<R>) returns (l: Option<L>, r: Option<R>, ghost turns: nat)
    requires lhs.left > 0 && rhs.left > 0 && (lhs as object) != rhs
    modifies lhs, rhs
    ensures l == if old(lhs.left) <= old(rhs.left) then Some(lhs.output) else None
    ensures r == if old(rhs.left) <= old(lhs.left) then Some(rhs.output) else None
    ensures lhs.polls - old(lhs.polls) == rhs.polls - old(rhs.polls) == turns + 1 == Min(old(lhs.left), old(rhs.left))
  {
    l := lhs.Poll();
    r := rhs.Poll();
    turns := 0;
    while l.None? && r.None?
      invariant l == if lhs.left == 0 then Some(lhs.output) else None
      invariant r == if rhs.left == 0 then Some(rhs.output) else None
      invariant lhs.polls - old(lhs.polls) == rhs.polls - old(rhs.polls) == turns + 1
      invariant lhs.left + turns + 1 == old(lhs.left) && rhs.left + turns + 1 == old(rhs.left)
      decreases lhs.left
    {
      turns := turns + 1;
      l := lhs.Poll();
      r := rhs.Poll();
    }
  }

  /** Yields once the increments since the last yield reach the threshold, and at the first increment. */
  class YieldCounter {
    const threshold: nat
    var current: nat
    ghost var since: Option<nat>

    ghost predicate Valid()
      reads this
    {
      match since
      case None => current == 0
      case Some(sum) => current == threshold - sum && (sum < threshold || sum == threshold == 0)
    }

    constructor (threshold: nat)
      ensures Valid() && this.threshold == threshold && since == None
    {
      this.threshold := threshold;
      current := 0;
      since := None;
    }

    method Increment(inc: nat) returns (yielded: bool)
      requires Valid()
      modifies this
      ensures Valid()
      ensures yielded <==> old(since).None? || old(since).value + inc >= threshold
      ensures since == Some(if yielded then 0 else old(since).value + inc)
    {
      current := if current < inc then 0 else current - inc;
      yielded := current == 0;
      if yielded {
        current := threshold;
        since := Some(0);
      } else {
        since := Some(since.value + inc);
      }
    }
  }
}
