/** The event population of the scheduler benchmark (utils/bench-scheduler.cc:119-176), on a
    simulator that keeps a multiset of event times. */
module SchedulerBench {

  lemma {:induction false} HasMinimum(s: multiset<nat>) returns (t: nat)
    requires |s| > 0
    ensures t in s && forall u | u in s :: t <= u
    decreases |s|
  {
    var x :| x in s;
    var rest := s - multiset{x};
    assert forall u | u in s :: u == x || u in rest;
    if |rest| == 0 {
      t := x;
    } else {
      var m := HasMinimum(rest);
      t := if x <= m then x else m;
    }
  }

  lemma MinimumExists(s: multiset<nat>)
    requires |s| > 0
    ensures exists t :: t in s && forall u | u in s :: t <= u
  {
    var t := HasMinimum(s);
  }

  lemma RemoveMinimum(s: multiset<nat>, t: nat)
    requires t in s && forall u | u in s :: t <= u
    ensures |s - multiset{t}| == |s| - 1 && forall u | u in s - multiset{t} :: t <= u
  {
  }

  /** The times never go back, and end at `end` at the latest. */
  ghost predicate Ascending(times: seq<nat>, end: nat) {
    times == [] || (times[|times| - 1] <= end && Ascending(times[..|times| - 1], times[|times| - 1]))
  }

  lemma {:induction false} AscendingMeans(times: seq<nat>, end: nat)
    requires Ascending(times, end)
    ensures forall i, j | 0 <= i <= j < |times| :: times[i] <= times[j] <= end
  {
    if times != [] {
      AscendingMeans(times[..|times| - 1], times[|times| - 1]);
    }
  }

  lemma AscendingSnoc(times: seq<nat>, now: nat, t: nat)
    requires Ascending(times, now) && now <= t
    ensures Ascending(times + [t], t)
  {
    assert (times + [t])[..|times|] == times;
  }

  /** One event more, at time `t`. */
  ghost predicate Added(before: multiset<nat>, after: multiset<nat>, t: nat) {
    after == before + multiset{t}
  }

  /** The simulator, as far as the benchmark uses it. `times` remembers when the callbacks
      ran and `populations` how many events were pending just before each of them. */
  class Simulator {
    var pending: multiset<nat>
    var now: nat
    var stopped: bool
    ghost var times: seq<nat>
    ghost var populations: seq<nat>

    ghost predicate Valid()
      reads this
    {
      (forall u | u in pending :: now <= u) && Ascending(times, now)
    }

    constructor ()
      ensures Valid() && pending == multiset{} && times == [] && populations == [] && !stopped
    {
      pending, now, stopped := multiset{}, 0, false;
      times, populations := [], [];
    }

    method Schedule(delay: nat)
      requires Valid()
      modifies this`pending
      ensures Valid() && pending == old(pending) + multiset{now + delay}
    {
      pending := pending + multiset{now + delay};
    }

    method Stop()
      requires Valid()
      modifies this`stopped
      ensures Valid() && stopped
    {
      stopped := true;
    }

    method Earliest() returns (t: nat)
      requires Valid() && |pending| > 0
      ensures t in pending && now <= t && |pending - multiset{t}| == |pending| - 1
      ensures forall u | u in pending - multiset{t} :: t <= u
    {
      MinimumExists(pending);
      t :| t in pending && forall u | u in pending :: t <= u;
      RemoveMinimum(pending, t);
    }

    /** Takes the earliest event off and moves the clock to it. */
    method Next()
      requires Valid() && |pending| > 0
      modifies this`pending, this`now, this`times, this`populations
      ensures Valid() && old(now) <= now
      ensures |pending| == |old(pending)| - 1
      ensures times == old(times) + [now] && populations == old(populations) + [|old(pending)|]
    {
      var t := Earliest();
      AscendingSnoc(times, now, t);
      populations := populations + [|pending|];
      pending := pending - multiset{t};
      times := times + [t];
      now := t;
    }
  }

  class Bench {
    const population: nat
    const total: nat
    var count: nat

    constructor (population: nat, total: nat)
      ensures this.population == population && this.total == total
    {
      this.population, this.total := population, total;
      count := 0;
    }

    /** The next delay of the random stream: any duration that is not negative. */
    method Delay() returns (d: nat) {
      d :| d >= 0;
    }

    method Cb(sim: Simulator)
      requires sim.Valid() && count <= total
      modifies this`count, sim`pending, sim`stopped
      ensures sim.Valid() && count <= total
      ensures old(count) == total ==> count == total && sim.stopped && sim.pending == old(sim.pending)
      ensures old(count) < total ==> count == old(count) + 1 && sim.stopped == old(sim.stopped) &&
                                     |sim.pending| == |old(sim.pending)| + 1 &&
                                     exists t :: sim.now <= t && Added(old(sim.pending), sim.pending, t)
    {
      if count >= total {
        sim.Stop();
        return;
      }
      var after := Delay();
      sim.Schedule(after);
      assert Added(old(sim.pending), sim.pending, sim.now + after);
      count := count + 1;
    }

    /** A run keeps exactly `population` events pending before every callback, never moves
        time backwards, and stops in callback number `total + 1` with one event less. */
    method Run() returns (sim: Simulator, events: nat)
      modifies this`count
      ensures events == count
      ensures population > 0 ==>
                && count == total && sim.stopped && |sim.pending| == population - 1
                && |sim.times| == total + 1 && (forall i, j | 0 <= i <= j <= total :: sim.times[i] <= sim.times[j])
                && |sim.populations| == total + 1 && forall p | p in sim.populations :: p == population
      ensures population == 0 ==> count == 0 && sim.pending == multiset{} && sim.times == []
    {
      count := 0;
      sim := new Simulator();
      for i := 0 to population
        invariant sim.Valid() && fresh(sim) && !sim.stopped && count == 0
        invariant |sim.pending| == i && sim.times == [] && sim.populations == []
      {
        var at := Delay();
        sim.Schedule(at);
      }
      while |sim.pending| > 0 && !sim.stopped
        invariant sim.Valid() && fresh(sim) && count <= total
        invariant population == 0 ==> |sim.pending| == 0 && count == 0 && sim.times == []
        invariant population > 0 && !sim.stopped ==> |sim.pending| == population && |sim.times| == count
        invariant population > 0 && sim.stopped ==>
                    |sim.pending| == population - 1 && |sim.times| == total + 1 && count == total
        invariant |sim.populations| == |sim.times| && forall p | p in sim.populations :: p == population
        decreases total - count, if sim.stopped then 0 else 1
      {
        sim.Next();
        Cb(sim);
      }
      AscendingMeans(sim.times, sim.now);
      events := count;
    }
  }
}
