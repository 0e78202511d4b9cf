/** The order in which the ns-3 libraries are loaded (bindings/python/ns__init__.py:380-421):
    rounds of libraries whose dependencies are already loaded. */
module DependencyOrder {

  type Library = string

  /** For each library the ns-3 libraries it is linked against. */
  type Dependencies = map<Library, seq<Library>>

  // ---------------------------------------------------------------- reference: chains and cycles

  /** Each library of a chain depends on the next one. */
  ghost predicate IsChain(deps: Dependencies, c: seq<Library>) {
    && c != []
    && (forall i | 0 <= i < |c| :: c[i] in deps)
    && forall i | 0 <= i < |c| - 1 :: c[i + 1] in deps[c[i]]
  }

  ghost predicate IsCycle(deps: Dependencies, c: seq<Library>) {
    |c| > 1 && IsChain(deps, c) && c[0] == c[|c| - 1]
  }

  ghost predicate Acyclic(deps: Dependencies) {
    forall c :: !IsCycle(deps, c)
  }

  ghost predicate Closed(deps: Dependencies) {
    forall m, d | m in deps && d in deps[m] :: d in deps
  }

  /** `n` is the number of dependencies on a longest chain from `m`. */
  ghost predicate LongestChain(deps: Dependencies, m: Library, n: nat) {
    && (exists c :: IsChain(deps, c) && c[0] == m && |c| == n + 1)
    && forall c | IsChain(deps, c) && c[0] == m :: |c| <= n + 1
  }

  // ---------------------------------------------------------------- rounds

  ghost predicate Satisfied(deps: Dependencies, m: Library, loaded: set<Library>)
    requires m in deps
  {
    forall d | d in deps[m] :: d in loaded
  }

  /** The libraries that `k` rounds load. */
  ghost function Loaded(deps: Dependencies, k: nat): set<Library> {
    if k == 0 then {} else
    Loaded(deps, k - 1) + set m | m in deps && Satisfied(deps, m, Loaded(deps, k - 1))
  }

  /** `k` rounds load everything. */
  ghost predicate Complete(deps: Dependencies, k: nat) {
    Loaded(deps, k) == deps.Keys
  }

  lemma {:induction false} LoadedGrows(deps: Dependencies, j: nat, k: nat)
    requires j <= k
    ensures Loaded(deps, j) <= Loaded(deps, k) <= deps.Keys
  {
    if j < k {
      LoadedGrows(deps, j, k - 1);
    } else if k > 0 {
      LoadedGrows(deps, k - 1, k - 1);
    }
  }

  /** What one round adds was ready in the round itself. */
  lemma {:induction false} LoadedNext(deps: Dependencies, k: nat, m: Library)
    requires m in deps
    ensures m in Loaded(deps, k + 1) <==> Satisfied(deps, m, Loaded(deps, k))
  {
    if k > 0 && m in Loaded(deps, k) {
      LoadedNext(deps, k - 1, m);
      LoadedGrows(deps, k - 1, k);
    }
  }

  /** A chain from a library that is loaded in `k` rounds has at most `k` members. */
  lemma {:induction false} ChainsFromLoaded(deps: Dependencies, k: nat, c: seq<Library>)
    requires IsChain(deps, c) && c[0] in Loaded(deps, k)
    ensures |c| <= k
  {
    if |c| > 1 {
      LoadedNext(deps, k - 1, c[0]);
      assert c[1] in deps[c[0]];
      assert c[1] in Loaded(deps, k - 1);
      ChainsFromLoaded(deps, k - 1, c[1..]);
    }
  }

  /** A library that `k` rounds do not load starts a chain of `k + 1` members. */
  lemma {:induction false} ChainFromPending(deps: Dependencies, k: nat, m: Library) returns (c: seq<Library>)
    requires Closed(deps) && m in deps && m !in Loaded(deps, k)
    ensures IsChain(deps, c) && c[0] == m && |c| == k + 1
  {
    if k == 0 {
      c := [m];
    } else {
      LoadedNext(deps, k - 1, m);
      var d :| d in deps[m] && d !in Loaded(deps, k - 1);
      var rest := ChainFromPending(deps, k - 1, d);
      c := [m] + rest;
    }
  }

  /** Step `k` holds exactly the libraries whose longest chain has length `k`. */
  lemma StepIsLongestChain(deps: Dependencies, k: nat, m: Library)
    requires Closed(deps) && m in deps
    ensures m in Loaded(deps, k + 1) - Loaded(deps, k) <==> LongestChain(deps, m, k)
  {
    if m in Loaded(deps, k + 1) - Loaded(deps, k) {
      var c := ChainFromPending(deps, k, m);
      forall c | IsChain(deps, c) && c[0] == m
        ensures |c| <= k + 1
      {
        ChainsFromLoaded(deps, k + 1, c);
      }
    }
    if LongestChain(deps, m, k) {
      if m !in Loaded(deps, k + 1) {
        var c := ChainFromPending(deps, k + 1, m);
        assert false;
      }
      if m in Loaded(deps, k) {
        var c :| IsChain(deps, c) && c[0] == m && |c| == k + 1;
        ChainsFromLoaded(deps, k, c);
        assert false;
      }
    }
  }

  // ---------------------------------------------------------------- when the rounds succeed

  /** No library of a cycle is ever loaded. */
  lemma {:induction false} CycleNeverLoaded(deps: Dependencies, c: seq<Library>, k: nat)
    requires IsCycle(deps, c)
    ensures forall m | m in c :: m !in Loaded(deps, k)
  {
    if k > 0 {
      CycleNeverLoaded(deps, c, k - 1);
      forall i | 0 <= i < |c|
        ensures c[i] !in Loaded(deps, k)
      {
        var j := if i == |c| - 1 then 0 else i;
        assert c[j] == c[i] && c[j + 1] in deps[c[j]];
        LoadedNext(deps, k - 1, c[i]);
      }
    }
  }

  lemma {:induction false} Pigeonhole(c: seq<Library>, s: set<Library>) returns (i: nat, j: nat)
    requires (forall m | m in c :: m in s) && |c| > |s|
    ensures i < j < |c| && c[i] == c[j]
  {
    var last := c[|c| - 1];
    if k :| 0 <= k < |c| - 1 && c[k] == last {
      i, j := k, |c| - 1;
    } else {
      i, j := Pigeonhole(c[..|c| - 1], s - {last});
    }
  }

  /** A chain with more members than there are libraries to choose from runs in a circle. */
  lemma LongChainHasCycle(deps: Dependencies, c: seq<Library>, s: set<Library>) returns (cycle: seq<Library>)
    requires IsChain(deps, c) && (forall m | m in c :: m in s) && |c| > |s|
    ensures IsCycle(deps, cycle) && forall m | m in cycle :: m in s
  {
    var i, j := Pigeonhole(c, s);
    cycle := c[i..j + 1];
    assert forall m | m in cycle :: m in c;
  }

  /** A chain that stays among the pending libraries of a round that loads nothing. */
  lemma {:induction false} ChainAmongPending(deps: Dependencies, k: nat, m: Library, n: nat) returns (c: seq<Library>)
    requires Loaded(deps, k + 1) == Loaded(deps, k)
    requires forall p, d | p in deps && p !in Loaded(deps, k) && d in deps[p] :: d in deps
    requires m in deps && m !in Loaded(deps, k)
    ensures IsChain(deps, c) && c[0] == m && |c| == n + 1
    ensures forall p | p in c :: p in deps.Keys - Loaded(deps, k)
    decreases n
  {
    if n == 0 {
      c := [m];
    } else {
      LoadedNext(deps, k, m);
      var d :| d in deps[m] && d !in Loaded(deps, k);
      var rest := ChainAmongPending(deps, k, d, n - 1);
      c := [m] + rest;
    }
  }

  /** A round that loads nothing while libraries are pending betrays a dependency that is
      not there, or a cycle inside the pending ones. */
  lemma StuckRound(deps: Dependencies, k: nat)
    requires Loaded(deps, k + 1) == Loaded(deps, k) && !Complete(deps, k)
    ensures var pending := deps.Keys - Loaded(deps, k);
            || (exists m, d :: m in pending && d in deps[m] && d !in deps)
            || (exists c :: IsCycle(deps, c) && forall m | m in c :: m in pending)
  {
    LoadedGrows(deps, k, k);
    assert Loaded(deps, k) < deps.Keys;
    var pending := deps.Keys - Loaded(deps, k);
    assert !(deps.Keys <= Loaded(deps, k));
    var m :| m in deps.Keys && m !in Loaded(deps, k);
    if forall p, d | p in pending && d in deps[p] :: d in deps {
      var c := ChainAmongPending(deps, k, m, |pending|);
      var cycle := LongChainHasCycle(deps, c, pending);
    }
  }

  /** All libraries get loaded if and only if the dependencies are closed and acyclic,
      and then there are no more rounds than libraries. */
  lemma AllLoadedIff(deps: Dependencies)
    ensures (exists k: nat :: Complete(deps, k)) <==> Closed(deps) && Acyclic(deps)
    ensures Closed(deps) && Acyclic(deps) ==> Complete(deps, |deps|)
  {
    if k: nat :| Complete(deps, k) {
      forall m, d | m in deps && d in deps[m]
        ensures d in deps
      {
        LoadedGrows(deps, k, k + 1);
        LoadedNext(deps, k, m);
      }
      forall c
        ensures !IsCycle(deps, c)
      {
        if IsCycle(deps, c) {
          CycleNeverLoaded(deps, c, k);
          assert false;
        }
      }
    }
    if Closed(deps) && Acyclic(deps) {
      LoadedGrows(deps, 0, |deps|);
      forall m | m in deps
        ensures m in Loaded(deps, |deps|)
      {
        if m !in Loaded(deps, |deps|) {
          var c := ChainFromPending(deps, |deps|, m);
          var cycle := LongChainHasCycle(deps, c, deps.Keys);
          assert false;
        }
      }
      assert Complete(deps, |deps|);
    }
  }

  /** `k` rounds load everything if and only if the dependencies are closed and no
      chain has more than `k` members. */
  lemma LoadedWithin(deps: Dependencies, k: nat)
    ensures Complete(deps, k) <==> Closed(deps) && forall c | IsChain(deps, c) :: |c| <= k
  {
    LoadedGrows(deps, k, k + 1);
    if Complete(deps, k) {
      AllLoadedIff(deps);
      forall c | IsChain(deps, c)
        ensures |c| <= k
      {
        ChainsFromLoaded(deps, k, c);
      }
    }
    if Closed(deps) && forall c | IsChain(deps, c) :: |c| <= k {
      forall m | m in deps
        ensures m in Loaded(deps, k)
      {
        if m !in Loaded(deps, k) {
          var c := ChainFromPending(deps, k, m);
          assert false;
        }
      }
    }
  }

  // ---------------------------------------------------------------- lists

  ghost predicate NoDuplicates(xs: seq<Library>) {
    forall i, j | 0 <= i < j < |xs| :: xs[i] != xs[j]
  }

  /** The members of `xs` that are in `s`, in order. */
  function Keep(xs: seq<Library>, s: set<Library>): seq<Library> {
    if xs == [] then [] else Keep(xs[..|xs| - 1], s) + if xs[|xs| - 1] in s then [xs[|xs| - 1]] else []
  }

  /** `list.remove`: drops the first occurrence. */
  function Remove(xs: seq<Library>, x: Library): seq<Library> {
    if xs == [] then [] else if xs[0] == x then xs[1..] else [xs[0]] + Remove(xs[1..], x)
  }

  function Flatten(xss: seq<seq<Library>>): seq<Library> {
    if xss == [] then [] else Flatten(xss[..|xss| - 1]) + xss[|xss| - 1]
  }

  lemma {:induction false} KeepMembers(xs: seq<Library>, s: set<Library>)
    ensures forall x :: x in Keep(xs, s) <==> x in xs && x in s
    ensures NoDuplicates(xs) ==> NoDuplicates(Keep(xs, s))
  {
    if xs != [] {
      KeepMembers(xs[..|xs| - 1], s);
      assert xs == xs[..|xs| - 1] + [xs[|xs| - 1]];
    }
  }

  /** `x` comes before `y` in the list. */
  ghost predicate Before(xs: seq<Library>, x: Library, y: Library) {
    exists p, q :: 0 <= p < q < |xs| && xs[p] == x && xs[q] == y
  }

  lemma {:induction false} KeepInOrder(xs: seq<Library>, s: set<Library>, i: nat, j: nat)
    requires i < j < |Keep(xs, s)|
    ensures Before(xs, Keep(xs, s)[i], Keep(xs, s)[j])
  {
    var front := xs[..|xs| - 1];
    var kept := Keep(front, s);
    if j < |kept| {
      KeepInOrder(front, s, i, j);
      var p, q :| 0 <= p < q < |front| && front[p] == kept[i] && front[q] == kept[j];
      assert xs[p] == kept[i] && xs[q] == kept[j];
    } else {
      KeepMembers(front, s);
      assert kept[i] in front;
      var p :| 0 <= p < |front| && front[p] == kept[i];
      assert xs[p] == kept[i] && xs[|xs| - 1] == Keep(xs, s)[j];
    }
  }

  lemma {:induction false} KeepKeep(xs: seq<Library>, s: set<Library>, t: set<Library>)
    ensures Keep(Keep(xs, s), t) == Keep(xs, s * t)
  {
    if xs != [] {
      var front, last := Keep(xs[..|xs| - 1], s), xs[|xs| - 1];
      KeepKeep(xs[..|xs| - 1], s, t);
      assert front + [] == front;
      assert (front + [last])[..|front|] == front;
    }
  }

  lemma {:induction false} KeepCongruent(xs: seq<Library>, s: set<Library>, t: set<Library>)
    requires forall x | x in xs :: x in s <==> x in t
    ensures Keep(xs, s) == Keep(xs, t)
  {
    if xs != [] {
      assert xs[|xs| - 1] in xs;
      KeepCongruent(xs[..|xs| - 1], s, t);
    }
  }

  lemma {:induction false} KeepAll(xs: seq<Library>, s: set<Library>)
    requires forall x | x in xs :: x in s
    ensures Keep(xs, s) == xs
  {
    if xs != [] {
      assert xs[|xs| - 1] in xs;
      KeepAll(xs[..|xs| - 1], s);
    }
  }

  lemma {:induction false} KeepConcat(xs: seq<Library>, ys: seq<Library>, s: set<Library>)
    ensures Keep(xs + ys, s) == Keep(xs, s) + Keep(ys, s)
  {
    if ys == [] {
      assert xs + ys == xs;
    } else {
      KeepConcat(xs, ys[..|ys| - 1], s);
      assert (xs + ys)[..|xs + ys| - 1] == xs + ys[..|ys| - 1];
    }
  }

  lemma KeepCons(xs: seq<Library>, s: set<Library>)
    requires xs != []
    ensures Keep(xs, s) == (if xs[0] in s then [xs[0]] else []) + Keep(xs[1..], s)
  {
    assert xs == [xs[0]] + xs[1..];
    KeepConcat([xs[0]], xs[1..], s);
  }

  /** Removing from a list without duplicates drops exactly that member. */
  lemma {:induction false} RemoveIsKeep(xs: seq<Library>, x: Library, s: set<Library>)
    requires NoDuplicates(xs) && forall y | y in xs :: y in s
    ensures Remove(xs, x) == Keep(xs, s - {x})
  {
    if xs != [] {
      KeepCons(xs, s - {x});
      if xs[0] == x {
        KeepAll(xs[1..], s - {x});
      } else {
        RemoveIsKeep(xs[1..], x, s);
      }
    }
  }

  ghost function Members(xs: seq<Library>): set<Library> {
    set x | x in xs
  }

  lemma RemoveFromKeep(xs: seq<Library>, s: set<Library>, x: Library)
    requires NoDuplicates(xs)
    ensures Remove(Keep(xs, s), x) == Keep(xs, s - {x})
  {
    KeepMembers(xs, s);
    RemoveIsKeep(Keep(xs, s), x, s);
    KeepKeep(xs, s, s - {x});
    assert s * (s - {x}) == s - {x};
  }

  function RemoveAll(xs: seq<Library>, ms: seq<Library>): seq<Library> {
    if ms == [] then xs else Remove(RemoveAll(xs, ms[..|ms| - 1]), ms[|ms| - 1])
  }

  lemma {:induction false} RemoveAllFromKeep(xs: seq<Library>, s: set<Library>, ms: seq<Library>)
    requires NoDuplicates(xs)
    ensures RemoveAll(Keep(xs, s), ms) == Keep(xs, s - Members(ms))
  {
    if ms == [] {
      assert s - Members(ms) == s;
    } else {
      var front, last := ms[..|ms| - 1], ms[|ms| - 1];
      RemoveAllFromKeep(xs, s, front);
      RemoveFromKeep(xs, s - Members(front), last);
      assert s - Members(front) - {last} == s - Members(ms);
    }
  }

  // ---------------------------------------------------------------- the loader

  datatype Outcome = Finished | RecursionError

  /** Every library comes after all its dependencies. */
  ghost predicate InOrder(deps: Dependencies, xs: seq<Library>) {
    forall i | 0 <= i < |xs| :: xs[i] in deps && forall d | d in deps[xs[i]] :: d in xs[..i]
  }

  /** The libraries of step `k`, in the order of the dictionary's keys. */
  ghost function StepList(deps: Dependencies, keys: seq<Library>, k: nat): seq<Library> {
    Keep(keys, Loaded(deps, k + 1) - Loaded(deps, k))
  }

  /** The state of the loader between two rounds, `k` of which are over. */
  ghost predicate AfterRounds(deps: Dependencies, keys: seq<Library>, k: nat,
                              pending: seq<Library>, current: seq<Library>, steps: seq<seq<Library>>)
  {
    && NoDuplicates(keys) && (forall m :: m in keys <==> m in deps)
    && (forall m :: m in current <==> m in Loaded(deps, k))
    && NoDuplicates(current) && InOrder(deps, current)
    && pending == Keep(keys, deps.Keys - Loaded(deps, k))
    && current == Flatten(steps) && |steps| == k
    && forall j | 0 <= j < k :: steps[j] == StepList(deps, keys, j)
  }

  lemma RoundsStart(deps: Dependencies, keys: seq<Library>)
    requires NoDuplicates(keys) && forall m :: m in keys <==> m in deps
    ensures AfterRounds(deps, keys, 0, keys, [], [])
  {
    KeepAll(keys, deps.Keys - Loaded(deps, 0));
  }

  lemma PendingEmpty(deps: Dependencies, keys: seq<Library>, k: nat,
                     pending: seq<Library>, current: seq<Library>, steps: seq<seq<Library>>)
    requires AfterRounds(deps, keys, k, pending, current, steps)
    ensures pending == [] <==> Complete(deps, k)
    ensures forall m | m in pending :: m in deps
  {
    LoadedGrows(deps, k, k);
    KeepMembers(keys, deps.Keys - Loaded(deps, k));
    if pending != [] {
      assert pending[0] in pending;
    }
  }

  /** A duplicate-free list of exactly the keys with every library after all that it
      depends on, cut into steps that hold the libraries by longest chain, each in the
      order of the keys. */
  ghost predicate IsLoadOrder(deps: Dependencies, keys: seq<Library>, sorted: seq<Library>, steps: seq<seq<Library>>)
  {
    && NoDuplicates(sorted) && (forall m :: m in sorted <==> m in deps) && InOrder(deps, sorted)
    && sorted == Flatten(steps)
    && (forall k, i, j | 0 <= k < |steps| && 0 <= i < j < |steps[k]| :: Before(keys, steps[k][i], steps[k][j]))
    && forall k, m | 0 <= k < |steps| && m in deps :: m in steps[k] <==> LongestChain(deps, m, k)
  }

  lemma RoundsEnd(deps: Dependencies, keys: seq<Library>, current: seq<Library>, steps: seq<seq<Library>>)
    requires Closed(deps) && AfterRounds(deps, keys, |steps|, [], current, steps)
    ensures IsLoadOrder(deps, keys, current, steps)
  {
    PendingEmpty(deps, keys, |steps|, [], current, steps);
    forall k, i, j | 0 <= k < |steps| && 0 <= i < j < |steps[k]|
      ensures Before(keys, steps[k][i], steps[k][j])
    {
      KeepInOrder(keys, Loaded(deps, k + 1) - Loaded(deps, k), i, j);
    }
    forall k, m | 0 <= k < |steps| && m in deps
      ensures m in steps[k] <==> LongestChain(deps, m, k)
    {
      KeepMembers(keys, Loaded(deps, k + 1) - Loaded(deps, k));
      StepIsLongestChain(deps, k, m);
    }
  }

  lemma Verdict(deps: Dependencies, keys: seq<Library>, k: nat,
                pending: seq<Library>, current: seq<Library>, steps: seq<seq<Library>>, last: nat)
    requires AfterRounds(deps, keys, k, pending, current, steps) && k <= last
    ensures pending == [] ==> Complete(deps, last)
    ensures pending != [] && k == last ==> !Complete(deps, last)
  {
    PendingEmpty(deps, keys, k, pending, current, steps);
    LoadedGrows(deps, k, last);
  }

  ghost function Ready(deps: Dependencies, current: seq<Library>): set<Library> {
    set m | m in deps && forall d | d in deps[m] :: d in current
  }

  /** What is ready among the pending libraries is what the next round loads. */
  lemma ReadyIsStep(deps: Dependencies, keys: seq<Library>, k: nat, current: seq<Library>)
    requires forall m :: m in keys <==> m in deps
    requires forall m :: m in current <==> m in Loaded(deps, k)
    ensures Keep(Keep(keys, deps.Keys - Loaded(deps, k)), Ready(deps, current))
            == StepList(deps, keys, k)
  {
    var open := deps.Keys - Loaded(deps, k);
    var ready := Ready(deps, current);
    KeepKeep(keys, open, ready);
    forall m | m in keys
      ensures m in open * ready <==> m in Loaded(deps, k + 1) - Loaded(deps, k)
    {
      LoadedNext(deps, k, m);
    }
    KeepCongruent(keys, open * ready, Loaded(deps, k + 1) - Loaded(deps, k));
  }

  /** Taking a step out of the pending libraries leaves those of the next round. */
  lemma RemoveStep(deps: Dependencies, keys: seq<Library>, k: nat)
    requires NoDuplicates(keys) && forall m :: m in keys <==> m in deps
    ensures RemoveAll(Keep(keys, deps.Keys - Loaded(deps, k)), StepList(deps, keys, k))
            == Keep(keys, deps.Keys - Loaded(deps, k + 1))
  {
    RemoveAllFromKeep(keys, deps.Keys - Loaded(deps, k), StepList(deps, keys, k));
    KeepMembers(keys, Loaded(deps, k + 1) - Loaded(deps, k));
    LoadedGrows(deps, k, k + 1);
    assert deps.Keys - Loaded(deps, k) - Members(StepList(deps, keys, k)) == deps.Keys - Loaded(deps, k + 1);
  }

  /** Appending a step to the loaded libraries keeps them in order and without duplicates. */
  lemma AppendStep(deps: Dependencies, keys: seq<Library>, k: nat, current: seq<Library>)
    requires NoDuplicates(keys) && forall m :: m in keys <==> m in deps
    requires forall m :: m in current <==> m in Loaded(deps, k)
    requires NoDuplicates(current) && InOrder(deps, current)
    ensures var next := current + StepList(deps, keys, k);
            && NoDuplicates(next) && InOrder(deps, next)
            && forall m :: m in next <==> m in Loaded(deps, k + 1)
  {
    var list := StepList(deps, keys, k);
    var next := current + list;
    KeepMembers(keys, Loaded(deps, k + 1) - Loaded(deps, k));
    LoadedGrows(deps, k, k + 1);
    forall i | 0 <= i < |next|
      ensures next[i] in deps && forall d | d in deps[next[i]] :: d in next[..i]
    {
      if i < |current| {
        assert next[..i] == current[..i];
      } else {
        assert next[i] in list;
        LoadedNext(deps, k, next[i]);
        assert next[..i] == current + list[..i - |current|];
      }
    }
    forall i, j | 0 <= i < j < |next|
      ensures next[i] != next[j]
    {
      if i < |current| <= j {
        assert next[i] in current && next[j] in list;
      }
    }
  }

  /** Moving all that is ready from the pending to the loaded libraries and into a new
      step completes one more round. */
  lemma RoundsGoOn(deps: Dependencies, keys: seq<Library>, k: nat,
                   pending: seq<Library>, current: seq<Library>, steps: seq<seq<Library>>)
    requires AfterRounds(deps, keys, k, pending, current, steps)
    ensures var list := StepList(deps, keys, k);
            && Keep(pending, Ready(deps, current)) == list
            && AfterRounds(deps, keys, k + 1, RemoveAll(pending, list), current + list, steps + [list])
  {
    var list := StepList(deps, keys, k);
    ReadyIsStep(deps, keys, k, current);
    RemoveStep(deps, keys, k);
    AppendStep(deps, keys, k, current);
    assert (steps + [list])[..|steps|] == steps;
  }

  class DependencyLoader {
    const deps: Dependencies
    /** The keys of `deps` in dictionary order. */
    const keys: seq<Library>
    var pending: seq<Library>
    var current: seq<Library>
    /** The dictionary `steps`; its keys are 0, 1, 2, ... */
    var steps: seq<seq<Library>>

    constructor (deps: Dependencies, keys: seq<Library>)
      ensures this.deps == deps && this.keys == keys
      ensures pending == keys && current == [] && steps == []
    {
      this.deps, this.keys := deps, keys;
      pending, current, steps := keys, [], [];
    }

    /** The pending libraries whose dependencies are all loaded. */
    method ModulesThatCanBeLoaded() returns (modules: seq<Library>)
      requires forall m | m in pending :: m in deps
      ensures modules == Keep(pending, Ready(deps, current))
    {
      modules := [];
      for i := 0 to |pending|
        invariant modules == Keep(pending[..i], Ready(deps, current))
      {
        assert pending[..i + 1][..i] == pending[..i];
        var canBeLoaded := true;
        for j := 0 to |deps[pending[i]]|
          invariant canBeLoaded
          invariant forall d | d in deps[pending[i]][..j] :: d in current
        {
          if deps[pending[i]][j] !in current {
            canBeLoaded := false;
            break;
          }
        }
        if canBeLoaded {
          modules := modules + [pending[i]];
        }
      }
      assert pending[..|pending|] == pending;
    }

    /** The body of one round, for every module that can be loaded. */
    method LoadModules(modules: seq<Library>, stepNumber: nat)
      requires |steps| == stepNumber + 1
      modifies this
      ensures steps == old(steps)[..stepNumber] + [old(steps)[stepNumber] + modules]
      ensures current == old(current) + modules
      ensures pending == RemoveAll(old(pending), modules)
    {
      ghost var list := steps[stepNumber];
      assert list + modules[..0] == list;
      for i := 0 to |modules|
        invariant steps == old(steps)[..stepNumber] + [list + modules[..i]]
        invariant current == old(current) + modules[..i]
        invariant pending == RemoveAll(old(pending), modules[..i])
      {
        assert modules[..i + 1][..i] == modules[..i];
        assert list + modules[..i + 1] == list + modules[..i] + [modules[i]];
        steps := steps[stepNumber := steps[stepNumber] + [modules[i]]];
        pending := Remove(pending, modules[i]);
        current := current + [modules[i]];
      }
      assert modules[..|modules|] == modules;
    }

    /** One level of the recursion: the step's list, the pending list and the list of
        loaded libraries change together. */
    method Round(stepNumber: nat)
      requires AfterRounds(deps, keys, stepNumber, pending, current, steps)
      modifies this
      ensures AfterRounds(deps, keys, stepNumber + 1, pending, current, steps)
    {
      PendingEmpty(deps, keys, stepNumber, pending, current, steps);
      RoundsGoOn(deps, keys, stepNumber, pending, current, steps);
      steps := steps + [[]];
      var modules := ModulesThatCanBeLoaded();
      LoadModules(modules, stepNumber);
      assert [] + modules == modules;
      assert steps == old(steps) + [modules];
    }

    /** The recursion of `dependency_order`, with `frames` levels of the Python stack to
        spare, the last of which is reached after `last` rounds. It empties the pending
        list or exhausts the stack. */
    method DependencyOrder(stepNumber: nat, frames: nat, ghost last: int) returns (r: Outcome)
      requires AfterRounds(deps, keys, stepNumber, pending, current, steps)
      requires last == stepNumber + frames - 1
      modifies this
      ensures r.Finished? <==> frames > 0 && Complete(deps, last)
      ensures r.Finished? ==> pending == [] && AfterRounds(deps, keys, |steps|, pending, current, steps)
      decreases frames
    {
      if frames == 0 {
        return RecursionError;
      }
      Verdict(deps, keys, stepNumber, pending, current, steps, last);
      if |pending| == 0 {
        return Finished;
      }
      Round(stepNumber);
      r := DependencyOrder(stepNumber + 1, frames - 1, last);
    }
  }

  /** `sort_to_dependencies`, with a Python stack of `frames` levels. It succeeds if and
      only if the dependencies are closed and no chain is too long for the stack; then the
      result is a duplicate-free permutation of the keys with every library after all its
      dependencies, made of steps that hold the libraries by longest chain. */
  method SortToDependencies(deps: Dependencies, keys: seq<Library>, frames: nat)
    returns (r: Outcome, sorted: seq<Library>, steps: seq<seq<Library>>)
    requires NoDuplicates(keys) && forall m :: m in keys <==> m in deps
    ensures r.Finished? <==> frames > 0 && Closed(deps) && forall c | IsChain(deps, c) :: |c| < frames
    ensures r.Finished? ==> IsLoadOrder(deps, keys, sorted, steps)
  {
    var loader := new DependencyLoader(deps, keys);
    RoundsStart(deps, keys);
    r := loader.DependencyOrder(0, frames, frames - 1);
    if frames > 0 {
      LoadedWithin(deps, frames - 1);
    }
    steps := loader.steps;
    if r.Finished? {
      RoundsEnd(deps, keys, loader.current, steps);
    }
    sorted := Concatenate(steps);
  }

  method Concatenate(steps: seq<seq<Library>>) returns (sorted: seq<Library>)
    ensures sorted == Flatten(steps)
  {
    sorted := [];
    for i := 0 to |steps|
      invariant sorted == Flatten(steps[..i])
    {
      assert steps[..i + 1][..i] == steps[..i];
      sorted := sorted + steps[i];
    }
    assert steps[..|steps|] == steps;
  }

  /** With a stack deeper than the number of libraries the outcome depends on the graph
      alone: it is an order if and only if the graph is closed and acyclic. */
  lemma DeepStackSuffices(deps: Dependencies, frames: nat)
    requires frames > |deps|
    ensures Closed(deps) && (forall c | IsChain(deps, c) :: |c| < frames) <==> Closed(deps) && Acyclic(deps)
  {
    AllLoadedIff(deps);
    if Closed(deps) && Acyclic(deps) {
      LoadedWithin(deps, |deps|);
    }
    if Closed(deps) && forall c | IsChain(deps, c) :: |c| < frames {
      assert forall c | IsChain(deps, c) :: |c| <= frames - 1;
      LoadedWithin(deps, frames - 1);
    }
  }
}
