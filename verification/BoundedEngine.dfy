/**
 The bounded engine as a scheduler: items start in input order while fewer than the width
 are in flight, and complete in any order. Its outcome is the serial map's.
 */
module BoundedEngine {
  import opened Wrappers

  /** What item `i` completes with, whenever that happens. */
  type Outcomes<R, E> = seq<Result<R, E>>

  /** `next` items have started; `done` lists completions in the order they happened. */
  datatype Engine<R, E> = Engine(next: nat, inFlight: set<nat>, done: seq<(nat, Result<R, E>)>)

  datatype Action = Start | Complete(item: nat)

  /** `width.max(1)`. */
  function Slots(width: nat): nat { if width == 0 then 1 else width }

  function Initial<R, E>(): Engine<R, E> { Engine(0, {}, []) }

  predicate Enabled<R, E>(s: Engine<R, E>, a: Action, count: nat, width: nat) {
    match a
    case Start => s.next < count && |s.inFlight| < Slots(width)
    case Complete(i) => i in s.inFlight
  }

  function Step<R, E>(s: Engine<R, E>, a: Action, outcomes: Outcomes<R, E>): Engine<R, E>
    requires a.Complete? ==> a.item < |outcomes|
  {
    match a
    case Start => s.(next := s.next + 1, inFlight := s.inFlight + {s.next})
    case Complete(i) => s.(inFlight := s.inFlight - {i}, done := s.done + [(i, outcomes[i])])
  }

  predicate Finished<R, E>(s: Engine<R, E>, count: nat) { s.next == count && s.inFlight == {} }

  /** A schedule: each action enabled in the state it is taken in. */
  ghost predicate Schedule<R(!new), E(!new)>(run: seq<Engine<R, E>>, actions: seq<Action>, outcomes: Outcomes<R, E>, width: nat) {
    && |run| == |actions| + 1
    && run[0] == Initial<R, E>()
    && forall k :: 0 <= k < |actions| ==>
         && Enabled(run[k], actions[k], |outcomes|, width)
         && (actions[k].Complete? ==> actions[k].item < |outcomes|)
         && run[k + 1] == Step(run[k], actions[k], outcomes)
  }

  // ------------------------------------------------------------ the outcome

  /** Results in order of index, stopping at the first error: `collect` into a `Result`. */
  function Collect<R, E>(results: seq<Result<R, E>>): Result<seq<R>, E> {
    if results == [] then Ok([])
    else
      match results[0]
      case Err(e) => Err(e)
      case Ok(r) =>
        match Collect(results[1..])
        case Err(e) => Err(e)
        case Ok(rs) => Ok([r] + rs)
  }

  function Values<R, E>(indexed: seq<(nat, Result<R, E>)>): (r: seq<Result<R, E>>)
    ensures |r| == |indexed|
  {
    seq(|indexed|, i requires 0 <= i < |indexed| => indexed[i].1)
  }

  ghost predicate ByIndex<V>(s: seq<(nat, V)>) { forall i, j :: 0 <= i < j < |s| ==> s[i].0 <= s[j].0 }

  /** `sorted` is `indexed` sorted by its distinct indices. */
  ghost predicate SortOf<R, E>(sorted: seq<(nat, Result<R, E>)>, indexed: seq<(nat, Result<R, E>)>) {
    && multiset(sorted) == multiset(indexed)
    && ByIndex(sorted)
  }

  /** The collected outcome is all values in order, or the first error by input position. */
  lemma {:induction false} CollectMeaning<R, E>(results: seq<Result<R, E>>)
    ensures Collect(results).Ok? <==> forall i :: 0 <= i < |results| ==> results[i].Ok?
    ensures Collect(results).Ok? ==> |Collect(results).value| == |results|
    ensures Collect(results).Ok? ==>
              forall i :: 0 <= i < |results| ==> results[i] == Ok(Collect(results).value[i])
    ensures Collect(results).Err? ==>
              exists i :: 0 <= i < |results| && FirstError(results, Collect(results).error, i)
  {
    if results != [] && results[0].Err? {
      assert FirstError(results, results[0].error, 0);
    } else if results != [] {
      CollectMeaning(results[1..]);
      if Collect(results).Err? {
        var i :| 0 <= i < |results| - 1 && FirstError(results[1..], Collect(results).error, i);
        assert forall j :: 0 < j <= i + 1 ==> results[j] == results[1..][j - 1];
        assert FirstError(results, Collect(results).error, i + 1);
      } else {
        assert forall i :: 0 < i < |results| ==> results[i] == results[1..][i - 1];
      }
    }
  }

  ghost predicate FirstError<R, E>(results: seq<Result<R, E>>, error: E, i: nat)
    requires i < |results|
  {
    results[i] == Err(error) && forall j :: 0 <= j < i ==> results[j].Ok?
  }

  // ------------------------------------------------------------ invariant

  /** Started items are in flight or done, once; completions carry their item's outcome; slots bound the flight. */
  ghost predicate Inv<R, E>(s: Engine<R, E>, outcomes: Outcomes<R, E>, width: nat) {
    && s.next <= |outcomes|
    && |s.inFlight| <= Slots(width)
    && |s.done| + |s.inFlight| == s.next
    && (forall i :: i in s.inFlight ==> i < s.next)
    && (forall i :: 0 <= i < s.next ==> i in s.inFlight || IsDone(s, i))
    && (forall k :: 0 <= k < |s.done| ==>
          s.done[k].0 < s.next && s.done[k].0 !in s.inFlight && s.done[k].1 == outcomes[s.done[k].0])
    && (forall k, m :: 0 <= k < m < |s.done| ==> s.done[k].0 != s.done[m].0)
  }

  ghost predicate IsDone<R, E>(s: Engine<R, E>, i: nat) { exists k :: 0 <= k < |s.done| && s.done[k].0 == i }

  lemma StartKeepsInv<R, E>(s: Engine<R, E>, outcomes: Outcomes<R, E>, width: nat)
    requires Inv(s, outcomes, width) && Enabled(s, Start, |outcomes|, width)
    ensures Inv(Step(s, Start, outcomes), outcomes, width)
  {
    var t := Step(s, Start, outcomes);
    forall i | 0 <= i < t.next ensures i in t.inFlight || IsDone(t, i) {
      if i < s.next && i !in s.inFlight {
        var k :| 0 <= k < |s.done| && s.done[k].0 == i;
        assert t.done[k].0 == i;
      }
    }
  }

  lemma CompleteKeepsInv<R, E>(s: Engine<R, E>, item: nat, outcomes: Outcomes<R, E>, width: nat)
    requires Inv(s, outcomes, width) && item in s.inFlight && item < |outcomes|
    ensures Inv(Step(s, Complete(item), outcomes), outcomes, width)
  {
    var t := Step(s, Complete(item), outcomes);
    forall i | 0 <= i < t.next ensures i in t.inFlight || IsDone(t, i) {
      if i == item {
        assert t.done[|s.done|].0 == i;
      } else if i !in s.inFlight {
        var k :| 0 <= k < |s.done| && s.done[k].0 == i;
        assert t.done[k].0 == i;
      }
    }
  }

  lemma StepKeepsInv<R, E>(s: Engine<R, E>, a: Action, outcomes: Outcomes<R, E>, width: nat)
    requires Inv(s, outcomes, width) && Enabled(s, a, |outcomes|, width)
    ensures a.Complete? ==> a.item < |outcomes|
    ensures Inv(Step(s, a, outcomes), outcomes, width)
  {
    match a
    case Start => StartKeepsInv(s, outcomes, width);
    case Complete(item) => CompleteKeepsInv(s, item, outcomes, width);
  }

  lemma {:induction false} ScheduleKeepsInv<R(!new), E(!new)>(run: seq<Engine<R, E>>, actions: seq<Action>,
                                                  outcomes: Outcomes<R, E>, width: nat, k: nat)
    requires Schedule(run, actions, outcomes, width) && k <= |actions|
    ensures Inv(run[k], outcomes, width)
  {
    if k > 0 {
      ScheduleKeepsInv(run, actions, outcomes, width, k - 1);
      StepKeepsInv(run[k - 1], actions[k - 1], outcomes, width);
    }
  }

  // ------------------------------------------------------------ main results

  /** A start waits for nothing but a free slot among `max(width, 1)`, and items start in input order. */
  lemma StartsFillSlots<R, E>(s: Engine<R, E>, outcomes: Outcomes<R, E>, width: nat)
    requires Inv(s, outcomes, width) && s.next < |outcomes|
    ensures Enabled(s, Start, |outcomes|, width) <==> |s.inFlight| < width || |s.inFlight| == 0
    ensures Step(s, Start, outcomes).inFlight == s.inFlight + {|s.done| + |s.inFlight|}
  {
  }

  /** At most `max(width, 1)` items are in flight, in every state of every schedule. */
  lemma WidthBounds<R(!new), E(!new)>(run: seq<Engine<R, E>>, actions: seq<Action>, outcomes: Outcomes<R, E>, width: nat)
    requires Schedule(run, actions, outcomes, width)
    ensures forall k :: 0 <= k < |run| ==> |run[k].inFlight| <= width || |run[k].inFlight| <= 1
  {
    forall k | 0 <= k < |run| ensures |run[k].inFlight| <= Slots(width) {
      ScheduleKeepsInv(run, actions, outcomes, width, k);
    }
  }

  /** Two actions per item: what is left to do strictly decreases. */
  function Remaining<R, E>(s: Engine<R, E>, count: nat): int { 2 * (count - s.next) + |s.inFlight| }

  lemma {:induction false} ScheduleProgress<R(!new), E(!new)>(run: seq<Engine<R, E>>, actions: seq<Action>,
                                                  outcomes: Outcomes<R, E>, width: nat, k: nat)
    requires Schedule(run, actions, outcomes, width) && k <= |actions|
    ensures Remaining(run[k], |outcomes|) + k == 2 * |outcomes|
  {
    if k > 0 {
      ScheduleProgress(run, actions, outcomes, width, k - 1);
      ScheduleKeepsInv(run, actions, outcomes, width, k - 1);
    }
  }

  /**
   Every run terminates: no schedule is longer than two actions per item, a state with no
   enabled action is finished, and a finished one has completed every item.
   */
  lemma EveryRunTerminates<R(!new), E(!new)>(run: seq<Engine<R, E>>, actions: seq<Action>,
                                             outcomes: Outcomes<R, E>, width: nat)
    requires Schedule(run, actions, outcomes, width)
    ensures |actions| <= 2 * |outcomes|
    ensures var last := run[|actions|];
            && (Finished(last, |outcomes|) <==> forall a :: !Enabled(last, a, |outcomes|, width))
            && (Finished(last, |outcomes|) <==> |actions| == 2 * |outcomes|)
            && (Finished(last, |outcomes|) ==> forall i :: 0 <= i < |outcomes| ==> IsDone(last, i))
  {
    var last := run[|actions|];
    ScheduleKeepsInv(run, actions, outcomes, width, |actions|);
    ScheduleProgress(run, actions, outcomes, width, |actions|);
    if !Finished(last, |outcomes|) {
      if last.inFlight == {} {
        assert Enabled(last, Start, |outcomes|, width);
      } else {
        var i :| i in last.inFlight;
        assert Enabled(last, Complete(i), |outcomes|, width);
      }
    }
  }

  lemma {:induction false} DistinctCountsOnce<T>(s: seq<T>, x: T)
    requires forall i, j :: 0 <= i < j < |s| ==> s[i] != s[j]
    ensures multiset(s)[x] <= 1
  {
    if s != [] {
      assert s == s[..|s| - 1] + [s[|s| - 1]];
      DistinctCountsOnce(s[..|s| - 1], x);
      assert s[|s| - 1] !in s[..|s| - 1];
    }
  }

  lemma RepeatCountsTwice<T>(s: seq<T>, i: nat, j: nat)
    requires i < j < |s| && s[i] == s[j]
    ensures multiset(s)[s[i]] >= 2
  {
    assert s == s[..j] + [s[j]] + s[j + 1..];
    assert s[i] in s[..j];
  }

  /** Sorting leaves strictly increasing indices. */
  lemma SortedStrictly<R, E>(s: Engine<R, E>, sorted: seq<(nat, Result<R, E>)>, outcomes: Outcomes<R, E>, width: nat)
    requires Inv(s, outcomes, width) && SortOf(sorted, s.done)
    ensures |sorted| == |s.done|
    ensures forall k :: 0 <= k < |sorted| ==>
              sorted[k].0 < s.next && sorted[k].1 == outcomes[sorted[k].0]
    ensures forall i, j :: 0 <= i < j < |sorted| ==> sorted[i].0 < sorted[j].0
  {
    assert |multiset(sorted)| == |multiset(s.done)|;
    forall k | 0 <= k < |sorted| ensures sorted[k].0 < s.next && sorted[k].1 == outcomes[sorted[k].0] {
      assert sorted[k] in multiset(s.done);
    }
    forall i, j | 0 <= i < j < |sorted| ensures sorted[i].0 < sorted[j].0 {
      if sorted[i] == sorted[j] {
        RepeatCountsTwice(sorted, i, j);
        DistinctCountsOnce(s.done, sorted[i]);
      }
    }
  }

  /** As many strictly increasing indices as there are below the bound are all of them. */
  lemma {:induction false} IncreasingIsIdentity<V>(sorted: seq<(nat, V)>, count: nat, k: nat)
    requires |sorted| == count && k < count
    requires forall i :: 0 <= i < count ==> sorted[i].0 < count
    requires forall i, j :: 0 <= i < j < count ==> sorted[i].0 < sorted[j].0
    ensures k <= sorted[k].0
    ensures sorted[k].0 <= k
  {
    AtLeast(sorted, k);
    AtMost(sorted, count, k);
  }

  lemma {:induction false} AtLeast<V>(sorted: seq<(nat, V)>, k: nat)
    requires k < |sorted|
    requires forall i, j :: 0 <= i < j < |sorted| ==> sorted[i].0 < sorted[j].0
    ensures k <= sorted[k].0
  {
    if k > 0 {
      AtLeast(sorted, k - 1);
    }
  }

  lemma {:induction false} AtMost<V>(sorted: seq<(nat, V)>, count: nat, k: nat)
    requires k < |sorted| == count
    requires forall i :: 0 <= i < count ==> sorted[i].0 < count
    requires forall i, j :: 0 <= i < j < count ==> sorted[i].0 < sorted[j].0
    ensures sorted[k].0 <= k
    decreases count - k
  {
    if k + 1 < count {
      AtMost(sorted, count, k + 1);
    }
  }

  /** Whatever the completion order, the sorted completions are the outcomes in input order. */
  lemma SortedIsInputOrder<R, E>(s: Engine<R, E>, sorted: seq<(nat, Result<R, E>)>, outcomes: Outcomes<R, E>, width: nat)
    requires Inv(s, outcomes, width) && Finished(s, |outcomes|) && SortOf(sorted, s.done)
    ensures Values(sorted) == outcomes
  {
    SortedStrictly(s, sorted, outcomes, width);
    forall k | 0 <= k < |sorted| ensures sorted[k].0 == k {
      IncreasingIsIdentity(sorted, |outcomes|, k);
    }
  }

  /** Over every schedule, however the completions interleave and fail, the outcome is the serial map's. */
  lemma OutcomeIsSerial<R(!new), E(!new)>(run: seq<Engine<R, E>>, actions: seq<Action>, outcomes: Outcomes<R, E>,
                                          width: nat, sorted: seq<(nat, Result<R, E>)>)
    requires Schedule(run, actions, outcomes, width) && |actions| == 2 * |outcomes|
    requires SortOf(sorted, run[|actions|].done)
    ensures Collect(Values(sorted)) == Collect(outcomes)
  {
    EveryRunTerminates(run, actions, outcomes, width);
    ScheduleKeepsInv(run, actions, outcomes, width, |actions|);
    SortedIsInputOrder(run[|actions|], sorted, outcomes, width);
  }

  // ------------------------------------------------------------ the engine run

  /** A completion inserted before the first one of no lower index. */
  function InsertIndexed<V>(x: (nat, V), sorted: seq<(nat, V)>): seq<(nat, V)> {
    if sorted == [] || x.0 <= sorted[0].0 then [x] + sorted
    else [sorted[0]] + InsertIndexed(x, sorted[1..])
  }

  lemma {:induction false} InsertKeepsAll<V>(x: (nat, V), sorted: seq<(nat, V)>)
    ensures multiset(InsertIndexed(x, sorted)) == multiset(sorted) + multiset{x}
  {
    if sorted != [] && sorted[0].0 < x.0 {
      InsertKeepsAll(x, sorted[1..]);
      assert sorted == [sorted[0]] + sorted[1..];
    }
  }

  lemma {:induction false} InsertSorts<V>(x: (nat, V), sorted: seq<(nat, V)>)
    requires ByIndex(sorted)
    ensures ByIndex(InsertIndexed(x, sorted))
  {
    if sorted != [] && sorted[0].0 < x.0 {
      InsertSorts(x, sorted[1..]);
      InsertedAreKnown(x, sorted[1..]);
      ConsSorts(sorted[0], InsertIndexed(x, sorted[1..]));
    }
  }

  /** What an insertion holds was there before or is the inserted element. */
  lemma InsertedAreKnown<V>(x: (nat, V), sorted: seq<(nat, V)>)
    ensures forall k :: 0 <= k < |InsertIndexed(x, sorted)| ==>
              InsertIndexed(x, sorted)[k] == x || InsertIndexed(x, sorted)[k] in sorted
  {
    var all := InsertIndexed(x, sorted);
    InsertKeepsAll(x, sorted);
    forall k | 0 <= k < |all| ensures all[k] == x || all[k] in sorted {
      assert all[k] in multiset(all);
    }
  }

  lemma ConsSorts<V>(x: (nat, V), rest: seq<(nat, V)>)
    requires ByIndex(rest) && forall k :: 0 <= k < |rest| ==> x.0 <= rest[k].0
    ensures ByIndex([x] + rest)
  {
  }

  /** Sorts the completions by input index. */
  method SortByIndex<R, E>(indexed: seq<(nat, Result<R, E>)>) returns (sorted: seq<(nat, Result<R, E>)>)
    ensures SortOf(sorted, indexed)
  {
    sorted := [];
    for k := 0 to |indexed|
      invariant SortOf(sorted, indexed[..k])
    {
      assert indexed[..k + 1] == indexed[..k] + [indexed[k]];
      InsertKeepsAll(indexed[k], sorted);
      InsertSorts(indexed[k], sorted);
      sorted := InsertIndexed(indexed[k], sorted);
    }
    assert indexed[..|indexed|] == indexed;
  }

  /** Some schedule, whichever: starts and completions are taken in arbitrary order, and the result is serial. */
  method ForEachBounded<R, E>(outcomes: Outcomes<R, E>, width: nat) returns (result: Result<seq<R>, E>)
    ensures result == Collect(outcomes)
  {
    var s := Initial<R, E>();
    while s.next < |outcomes| || s.inFlight != {}
      invariant Inv(s, outcomes, width)
      decreases Remaining(s, |outcomes|)
    {
      var preferStart: bool := *;
      if s.inFlight == {} || (preferStart && Enabled(s, Start, |outcomes|, width)) {
        StartKeepsInv(s, outcomes, width);
        s := Step(s, Start, outcomes);
      } else {
        var i :| i in s.inFlight;
        CompleteKeepsInv(s, i, outcomes, width);
        s := Step(s, Complete(i), outcomes);
      }
    }
    var sorted := SortByIndex(s.done);
    SortedIsInputOrder(s, sorted, outcomes, width);
    result := Collect(Values(sorted));
  }
}
