/** How test.py turns the jobs it gets back into counters, name lists and an exit code
    (test.py:1697-1753, 1873-1889, 1942-1945). */
module TestSummary {

  /** One unit of work. `id` is its position in the dispatch order; two jobs with the
      same fields are still two jobs. */
  datatype Job = Job(
    id: nat,
    displayName: string,
    isSkip: bool,
    skipReason: string,
    returncode: int,
    isBreak: bool)

  datatype Status = Interrupted | Skip | Pass | Fail | Valgr | Crash

  function StatusOf(job: Job): Status {
    if job.isBreak then Interrupted
    else if job.isSkip then Skip
    else if job.returncode == 0 then Pass
    else if job.returncode == 1 then Fail
    else if job.returncode == 2 then Valgr
    else Crash
  }

  /** The counters and name lists that the main thread keeps. */
  datatype Summary = Summary(
    passed: nat,
    skipped: nat, skippedNames: seq<string>,
    failed: nat, failedNames: seq<string>,
    crashed: nat, crashedNames: seq<string>,
    valgrind: nat, valgrindNames: seq<string>)

  const EMPTY := Summary(0, 0, [], 0, [], 0, [], 0, [])

  /** One turn of the collecting loop. */
  function Record(s: Summary, job: Job): Summary {
    if job.isBreak then s
    else if job.isSkip then
      s.(skipped := s.skipped + 1, skippedNames := s.skippedNames + [job.displayName + " (" + job.skipReason + ")"])
    else if job.returncode == 0 then s.(passed := s.passed + 1)
    else if job.returncode == 1 then
      s.(failed := s.failed + 1, failedNames := s.failedNames + [job.displayName])
    else if job.returncode == 2 then
      s.(valgrind := s.valgrind + 1, valgrindNames := s.valgrindNames + [job.displayName])
    else
      s.(crashed := s.crashed + 1, crashedNames := s.crashedNames + [job.displayName])
  }

  function Tally(jobs: seq<Job>): Summary {
    if jobs == [] then EMPTY else Record(Tally(jobs[..|jobs| - 1]), jobs[|jobs| - 1])
  }

  function ExitCode(s: Summary, total: nat): int {
    if s.passed + s.skipped == total then 0 else 1
  }

  // ---------------------------------------------------------------- meaning of the counters

  function ReportedName(job: Job): string {
    if job.isSkip then job.displayName + " (" + job.skipReason + ")" else job.displayName
  }

  /** The reported names of the jobs with one status, in the order given. */
  function Names(jobs: seq<Job>, status: Status): seq<string> {
    if jobs == [] then [] else
    Names(jobs[..|jobs| - 1], status) +
    if StatusOf(jobs[|jobs| - 1]) == status then [ReportedName(jobs[|jobs| - 1])] else []
  }

  ghost predicate Reports(s: Summary, jobs: seq<Job>) {
    && s.passed == |Names(jobs, Pass)|
    && s.skippedNames == Names(jobs, Skip) && s.skipped == |s.skippedNames|
    && s.failedNames == Names(jobs, Fail) && s.failed == |s.failedNames|
    && s.crashedNames == Names(jobs, Crash) && s.crashed == |s.crashedNames|
    && s.valgrindNames == Names(jobs, Valgr) && s.valgrind == |s.valgrindNames|
  }

  lemma {:induction false} TallyReports(jobs: seq<Job>)
    ensures Reports(Tally(jobs), jobs)
  {
    if jobs != [] {
      TallyReports(jobs[..|jobs| - 1]);
    }
  }

  /** What is printed of the jobs that meet a condition, in the order given. */
  ghost function Printed(jobs: seq<Job>, p: Job -> bool, text: Job -> string): seq<string> {
    if jobs == [] then [] else
    Printed(jobs[..|jobs| - 1], p, text) + if p(jobs[|jobs| - 1]) then [text(jobs[|jobs| - 1])] else []
  }

  predicate HasCode(job: Job, code: int) {
    !job.isBreak && !job.isSkip && job.returncode == code
  }

  /** The report in terms of the jobs: what was interrupted is left out, what was skipped
      is listed with the reason, and 0, 1 and 2 stand for passes, failures and memory
      errors; any other code is a crash. */
  ghost predicate ReportsByCode(s: Summary, jobs: seq<Job>) {
    var name := (job: Job) => job.displayName;
    && s.passed == |Printed(jobs, (job: Job) => HasCode(job, 0), name)|
    && s.skipped == |s.skippedNames| && s.failed == |s.failedNames|
    && s.crashed == |s.crashedNames| && s.valgrind == |s.valgrindNames|
    && s.skippedNames == Printed(jobs, (job: Job) => !job.isBreak && job.isSkip,
                                 (job: Job) => job.displayName + " (" + job.skipReason + ")")
    && s.failedNames == Printed(jobs, (job: Job) => HasCode(job, 1), name)
    && s.valgrindNames == Printed(jobs, (job: Job) => HasCode(job, 2), name)
    && s.crashedNames == Printed(jobs, (job: Job) => !job.isBreak && !job.isSkip && job.returncode !in {0, 1, 2}, name)
  }

  lemma {:induction false} NamesPrinted(jobs: seq<Job>, status: Status, p: Job -> bool, text: Job -> string)
    requires forall job: Job :: p(job) <==> StatusOf(job) == status
    requires forall job: Job | p(job) :: text(job) == ReportedName(job)
    ensures Names(jobs, status) == Printed(jobs, p, text)
  {
    if jobs != [] {
      NamesPrinted(jobs[..|jobs| - 1], status, p, text);
    }
  }

  lemma TallyReportsByCode(jobs: seq<Job>)
    ensures ReportsByCode(Tally(jobs), jobs)
  {
    TallyReports(jobs);
    var name := (job: Job) => job.displayName;
    NamesPrinted(jobs, Pass, (job: Job) => HasCode(job, 0), name);
    NamesPrinted(jobs, Skip, (job: Job) => !job.isBreak && job.isSkip,
                 (job: Job) => job.displayName + " (" + job.skipReason + ")");
    NamesPrinted(jobs, Fail, (job: Job) => HasCode(job, 1), name);
    NamesPrinted(jobs, Valgr, (job: Job) => HasCode(job, 2), name);
    NamesPrinted(jobs, Crash, (job: Job) => !job.isBreak && !job.isSkip && job.returncode !in {0, 1, 2}, name);
  }

  /** Every job is counted in exactly one place. */
  lemma {:induction false} StatusesPartition(jobs: seq<Job>)
    ensures |Names(jobs, Pass)| + |Names(jobs, Skip)| + |Names(jobs, Fail)| + |Names(jobs, Crash)|
            + |Names(jobs, Valgr)| + |Names(jobs, Interrupted)| == |jobs|
  {
    if jobs != [] {
      StatusesPartition(jobs[..|jobs| - 1]);
    }
  }

  function Total(s: Summary): nat {
    s.passed + s.failed + s.skipped + s.crashed + s.valgrind
  }

  lemma TotalsAddUp(jobs: seq<Job>)
    ensures Total(Tally(jobs)) + |Names(jobs, Interrupted)| == |jobs|
  {
    TallyReports(jobs);
    StatusesPartition(jobs);
  }

  /** Every job was skipped or returned 0, and none was interrupted. */
  ghost predicate AllGood(jobs: seq<Job>) {
    forall j | j in jobs :: !j.isBreak && (j.isSkip || j.returncode == 0)
  }

  lemma {:induction false} AllGoodCount(jobs: seq<Job>)
    ensures |Names(jobs, Pass)| + |Names(jobs, Skip)| <= |jobs|
    ensures |Names(jobs, Pass)| + |Names(jobs, Skip)| == |jobs| <==>
            AllGood(jobs)
  {
    if jobs != [] {
      var front, last := jobs[..|jobs| - 1], jobs[|jobs| - 1];
      AllGoodCount(front);
      assert jobs == front + [last];
      assert forall j :: j in jobs <==> j in front || j == last;
    }
  }

  /** The exit code is 0 exactly when all went well. */
  lemma ExitCodeMeaning(jobs: seq<Job>)
    ensures ExitCode(Tally(jobs), |jobs|) == 0 <==> AllGood(jobs)
  {
    TallyReports(jobs);
    AllGoodCount(jobs);
  }

  /** The collecting loop and the exit code, for the jobs in the order they arrive. */
  method CollectResults(arrivals: seq<Job>) returns (summary: Summary, exitCode: int)
    ensures ReportsByCode(summary, arrivals)
    ensures summary == Tally(arrivals)
    ensures exitCode == 0 <==> AllGood(arrivals)
    ensures exitCode == 0 || exitCode == 1
  {
    var passed, skipped, failed, crashed, valgrind := 0, 0, 0, 0, 0;
    var skippedNames, failedNames, crashedNames, valgrindNames := [], [], [], [];
    for i := 0 to |arrivals|
      invariant passed >= 0 && skipped >= 0 && failed >= 0 && crashed >= 0 && valgrind >= 0
      invariant Summary(passed, skipped, skippedNames, failed, failedNames, crashed, crashedNames,
                        valgrind, valgrindNames) == Tally(arrivals[..i])
    {
      var job := arrivals[i];
      assert arrivals[..i + 1][..i] == arrivals[..i];
      if job.isBreak {
        continue;
      }
      if job.isSkip {
        skipped := skipped + 1;
        skippedNames := skippedNames + [job.displayName + " (" + job.skipReason + ")"];
      } else if job.returncode == 0 {
        passed := passed + 1;
      } else if job.returncode == 1 {
        failed := failed + 1;
        failedNames := failedNames + [job.displayName];
      } else if job.returncode == 2 {
        valgrind := valgrind + 1;
        valgrindNames := valgrindNames + [job.displayName];
      } else {
        crashed := crashed + 1;
        crashedNames := crashedNames + [job.displayName];
      }
    }
    summary := Summary(passed, skipped, skippedNames, failed, failedNames, crashed, crashedNames,
                       valgrind, valgrindNames);
    assert arrivals[..|arrivals|] == arrivals;
    TallyReportsByCode(arrivals);
    TallyReports(arrivals);
    AllGoodCount(arrivals);
    exitCode := if passed + skipped == |arrivals| then 0 else 1;
  }

  // ---------------------------------------------------------------- order does not matter

  lemma {:induction false} NamesConcat(a: seq<Job>, b: seq<Job>, status: Status)
    ensures Names(a + b, status) == Names(a, status) + Names(b, status)
  {
    if b == [] {
      assert a + b == a;
    } else {
      NamesConcat(a, b[..|b| - 1], status);
      assert (a + b)[..|a + b| - 1] == a + b[..|b| - 1];
    }
  }

  lemma NamesInsert(a: seq<Job>, x: Job, b: seq<Job>, status: Status)
    ensures multiset(Names(a + [x] + b, status)) == multiset(Names(a + b, status)) + multiset(Names([x], status))
  {
    NamesConcat(a, b, status);
    NamesConcat(a, [x], status);
    NamesConcat(a + [x], b, status);
  }

  lemma FindLast<T>(xs: seq<T>, ys: seq<T>) returns (a: seq<T>, b: seq<T>)
    requires multiset(xs) == multiset(ys) && xs != []
    ensures ys == a + [xs[|xs| - 1]] + b
    ensures multiset(xs[..|xs| - 1]) == multiset(a + b)
  {
    var front, x := xs[..|xs| - 1], xs[|xs| - 1];
    assert xs == front + [x];
    assert x in multiset(ys);
    var i :| 0 <= i < |ys| && ys[i] == x;
    a, b := ys[..i], ys[i + 1..];
    assert ys == a + [x] + b;
    assert multiset(front) == multiset(xs) - multiset{x} == multiset(ys) - multiset{x} == multiset(a + b);
  }

  lemma {:induction false} NamesPermute(xs: seq<Job>, ys: seq<Job>, status: Status)
    requires multiset(xs) == multiset(ys)
    ensures multiset(Names(xs, status)) == multiset(Names(ys, status))
  {
    if xs == [] {
      assert |multiset(ys)| == 0;
    } else {
      var x := xs[|xs| - 1];
      var a, b := FindLast(xs, ys);
      NamesPermute(xs[..|xs| - 1], a + b, status);
      calc {
        multiset(Names(xs, status));
      ==  { NamesConcat(xs[..|xs| - 1], [x], status); assert xs == xs[..|xs| - 1] + [x]; }
        multiset(Names(xs[..|xs| - 1], status)) + multiset(Names([x], status));
      ==
        multiset(Names(a + b, status)) + multiset(Names([x], status));
      ==  { NamesInsert(a, x, b, status); }
        multiset(Names(ys, status));
      }
    }
  }

  /** Python compares strings by code point. */
  predicate StringLeq(a: string, b: string) {
    a == [] || (b != [] && (a[0] < b[0] || (a[0] == b[0] && StringLeq(a[1..], b[1..]))))
  }

  /** They first differ in the character at `i`, where `a` has the lower one. */
  ghost predicate LowerAt(a: string, b: string, i: nat) {
    i < |a| && i < |b| && a[..i] == b[..i] && a[i] < b[i]
  }

  /** `a` is the beginning of `b`, or has the lower character where they first differ. */
  ghost predicate Precedes(a: string, b: string) {
    a <= b || exists i: nat :: LowerAt(a, b, i)
  }

  lemma PrecedesDiffering(a: string, b: string)
    requires a != [] && b != [] && a[0] != b[0]
    ensures Precedes(a, b) <==> a[0] < b[0]
  {
    if a[0] < b[0] {
      assert LowerAt(a, b, 0);
    }
    if i: nat :| LowerAt(a, b, i) {
      assert i > 0 ==> a[..i][0] == b[..i][0];
    }
  }

  lemma LowerAtTail(a: string, b: string, i: nat)
    requires a != [] && b != [] && a[0] == b[0]
    ensures LowerAt(a[1..], b[1..], i) <==> LowerAt(a, b, i + 1)
  {
    assert a[..1] == b[..1];
    assert |a| > i ==> a[..i + 1] == a[..1] + a[1..][..i];
    assert |b| > i ==> b[..i + 1] == b[..1] + b[1..][..i];
  }

  lemma PrefixTail(a: string, b: string)
    requires a != [] && b != [] && a[0] == b[0]
    ensures a <= b <==> a[1..] <= b[1..]
  {
    assert a == [a[0]] + a[1..] && b == [b[0]] + b[1..];
    if a[1..] <= b[1..] {
      assert b == a + b[|a|..];
    }
  }

  lemma PrecedesTail(a: string, b: string)
    requires a != [] && b != [] && a[0] == b[0]
    ensures Precedes(a, b) <==> Precedes(a[1..], b[1..])
  {
    PrefixTail(a, b);
    if i: nat :| LowerAt(a, b, i) {
      LowerAtTail(a, b, i - 1);
    }
    if i: nat :| LowerAt(a[1..], b[1..], i) {
      LowerAtTail(a, b, i);
    }
  }

  lemma {:induction false} StringLeqMeans(a: string, b: string)
    ensures StringLeq(a, b) <==> Precedes(a, b)
  {
    if a != [] && b != [] {
      if a[0] == b[0] {
        StringLeqMeans(a[1..], b[1..]);
        PrecedesTail(a, b);
      } else {
        PrecedesDiffering(a, b);
      }
    }
  }

  lemma {:induction false} StringLeqAntisymmetric(a: string, b: string)
    requires StringLeq(a, b) && StringLeq(b, a)
    ensures a == b
  {
    if a != [] {
      StringLeqAntisymmetric(a[1..], b[1..]);
      assert a == [a[0]] + a[1..] == [b[0]] + b[1..] == b;
    }
  }

  lemma {:induction false} StringLeqTotal(a: string, b: string)
    ensures StringLeq(a, b) || StringLeq(b, a)
  {
    if a != [] && b != [] && a[0] == b[0] {
      StringLeqTotal(a[1..], b[1..]);
    }
  }

  lemma {:induction false} StringLeqTransitive(a: string, b: string, c: string)
    requires StringLeq(a, b) && StringLeq(b, c)
    ensures StringLeq(a, c)
  {
    if a != [] && a[0] == b[0] == c[0] {
      StringLeqTransitive(a[1..], b[1..], c[1..]);
    }
  }

  ghost predicate Sorted(xs: seq<string>) {
    forall i, j | 0 <= i < j < |xs| :: StringLeq(xs[i], xs[j])
  }

  function Insert(x: string, xs: seq<string>): seq<string> {
    if xs == [] || StringLeq(x, xs[0]) then [x] + xs else [xs[0]] + Insert(x, xs[1..])
  }

  /** What `list.sort()` makes of a list. */
  function Sort(xs: seq<string>): seq<string> {
    if xs == [] then [] else Insert(xs[0], Sort(xs[1..]))
  }

  lemma SortedCons(x: string, xs: seq<string>)
    requires Sorted(xs) && forall y | y in xs :: StringLeq(x, y)
    ensures Sorted([x] + xs)
  {
  }

  lemma {:induction false} InsertSorts(x: string, xs: seq<string>)
    requires Sorted(xs)
    ensures Sorted(Insert(x, xs)) && multiset(Insert(x, xs)) == multiset{x} + multiset(xs)
  {
    if xs == [] {
    } else if StringLeq(x, xs[0]) {
      forall y | y in xs
        ensures StringLeq(x, y)
      {
        if y != xs[0] {
          StringLeqTransitive(x, xs[0], y);
        }
      }
      SortedCons(x, xs);
    } else {
      StringLeqTotal(x, xs[0]);
      InsertSorts(x, xs[1..]);
      var rest := Insert(x, xs[1..]);
      forall y | y in rest
        ensures StringLeq(xs[0], y)
      {
        assert y in multiset(rest);
        assert y == x || y in xs[1..];
      }
      SortedCons(xs[0], rest);
      assert xs == [xs[0]] + xs[1..];
    }
  }

  lemma {:induction false} SortIsSorted(xs: seq<string>)
    ensures Sorted(Sort(xs)) && multiset(Sort(xs)) == multiset(xs)
  {
    if xs != [] {
      SortIsSorted(xs[1..]);
      InsertSorts(xs[0], Sort(xs[1..]));
      assert xs == [xs[0]] + xs[1..];
    }
  }

  /** Every list has a sort: the same strings, in the order of their characters. */
  lemma SortSorts(xs: seq<string>)
    ensures multiset(Sort(xs)) == multiset(xs)
    ensures forall i, j | 0 <= i < j < |Sort(xs)| :: Precedes(Sort(xs)[i], Sort(xs)[j])
  {
    SortIsSorted(xs);
    forall i, j | 0 <= i < j < |Sort(xs)|
      ensures Precedes(Sort(xs)[i], Sort(xs)[j])
    {
      StringLeqMeans(Sort(xs)[i], Sort(xs)[j]);
    }
  }

  lemma SortedMinimum(a: seq<string>, x: string)
    requires Sorted(a) && x in a
    ensures a[0] == x || StringLeq(a[0], x)
  {
  }

  lemma TailMultiset<T>(s: seq<T>)
    requires s != []
    ensures multiset(s[1..]) == multiset(s) - multiset{s[0]}
  {
    assert s == [s[0]] + s[1..];
  }

  lemma SameMinimum(a: seq<string>, b: seq<string>)
    requires Sorted(a) && Sorted(b) && multiset(a) == multiset(b) && a != [] && b != []
    ensures a[0] == b[0]
  {
    assert a[0] in multiset(b) && b[0] in multiset(a);
    SortedMinimum(a, b[0]);
    SortedMinimum(b, a[0]);
    if a[0] != b[0] {
      StringLeqAntisymmetric(a[0], b[0]);
    }
  }

  lemma {:induction false} SortUnique(a: seq<string>, b: seq<string>)
    requires Sorted(a) && Sorted(b) && multiset(a) == multiset(b)
    ensures a == b
  {
    assert |multiset(a)| == |a| && |multiset(b)| == |b|;
    if a != [] {
      SameMinimum(a, b);
      TailMultiset(a);
      TailMultiset(b);
      SortUnique(a[1..], b[1..]);
      assert a == [a[0]] + a[1..] && b == [b[0]] + b[1..];
    }
  }

  /** Two lists have the same sort if and only if they hold the same strings equally often. */
  lemma SameSortIff(xs: seq<string>, ys: seq<string>)
    ensures Sort(xs) == Sort(ys) <==> multiset(xs) == multiset(ys)
  {
    SortIsSorted(xs);
    SortIsSorted(ys);
    if multiset(xs) == multiset(ys) {
      SortUnique(Sort(xs), Sort(ys));
    }
  }

  /** Two summaries that print the same lines once their name lists are sorted. */
  ghost predicate SameReport(s: Summary, t: Summary) {
    && s.passed == t.passed && s.skipped == t.skipped && s.failed == t.failed
    && s.crashed == t.crashed && s.valgrind == t.valgrind
    && Sort(s.skippedNames) == Sort(t.skippedNames) && Sort(s.failedNames) == Sort(t.failedNames)
    && Sort(s.crashedNames) == Sort(t.crashedNames) && Sort(s.valgrindNames) == Sort(t.valgrindNames)
  }

  lemma PermutedNames(xs: seq<Job>, ys: seq<Job>, status: Status)
    requires multiset(xs) == multiset(ys)
    ensures |Names(xs, status)| == |Names(ys, status)|
    ensures Sort(Names(xs, status)) == Sort(Names(ys, status))
  {
    NamesPermute(xs, ys, status);
    assert |multiset(Names(xs, status))| == |multiset(Names(ys, status))|;
    SameSortIff(Names(xs, status), Names(ys, status));
  }

  /** The order in which results arrive does not show in the report. */
  lemma ReportIgnoresOrder(xs: seq<Job>, ys: seq<Job>)
    requires multiset(xs) == multiset(ys)
    ensures SameReport(Tally(xs), Tally(ys))
  {
    TallyReports(xs);
    TallyReports(ys);
    PermutedNames(xs, ys, Pass);
    PermutedNames(xs, ys, Skip);
    PermutedNames(xs, ys, Fail);
    PermutedNames(xs, ys, Crash);
    PermutedNames(xs, ys, Valgr);
  }
}
