/** The round-trip-time probe of scratch/wormhole_attack_detection.cc (24, 139-277), with
    times in milliseconds over the reals. */
module RttDetector {

  /** `MilliSeconds(mu)` takes a whole number of milliseconds, so the fraction of the
      configured threshold is dropped. */
  function Threshold(mu: real): real {
    mu.Floor as real
  }

  function Abs(x: real): real {
    if x >= 0.0 then x else -x
  }

  /** The new estimate; zero means that there is none yet. */
  function NextEstimate(estimate: real, rtt: real): real {
    if estimate == 0.0 then rtt else 0.8 * estimate + 0.2 * rtt
  }

  predicate Exceeds(deviation: real, threshold: real) {
    deviation > threshold
  }

  predicate Flagged(mu: real, estimate: real, rtt: real) {
    Exceeds(Abs(rtt - (if estimate == 0.0 then rtt else estimate)), Threshold(mu))
  }

  /** The estimate after the given samples. */
  function Estimate(samples: seq<real>): real {
    if samples == [] then 0.0
    else NextEstimate(Estimate(samples[..|samples| - 1]), samples[|samples| - 1])
  }

  lemma EstimateSnoc(samples: seq<real>, rtt: real)
    ensures Estimate(samples + [rtt]) == NextEstimate(Estimate(samples), rtt)
  {
    assert (samples + [rtt])[..|samples|] == samples;
  }

  /** Whether sample `i` is reported. */
  predicate FlaggedAt(mu: real, samples: seq<real>, i: nat)
    requires i < |samples|
  {
    Flagged(mu, Estimate(samples[..i]), samples[i])
  }

  // ---------------------------------------------------------------- steady samples

  ghost predicate InBand(samples: seq<real>, lo: real, hi: real) {
    forall i | 0 <= i < |samples| :: lo <= samples[i] <= hi
  }

  /** Between positive samples the estimate stays between the least and the greatest. */
  lemma {:induction false} EstimateInBand(samples: seq<real>, lo: real, hi: real)
    requires samples != [] && 0.0 < lo && InBand(samples, lo, hi)
    ensures lo <= Estimate(samples) <= hi
  {
    if |samples| > 1 {
      EstimateInBand(samples[..|samples| - 1], lo, hi);
    } else {
      assert samples[..0] == [];
    }
  }

  /** Samples in a band no wider than the threshold are never reported. */
  lemma SteadyNeverFlagged(mu: real, samples: seq<real>, lo: real, hi: real, i: nat)
    requires mu >= 0.0 && 0.0 < lo && InBand(samples, lo, hi) && hi - lo <= Threshold(mu)
    requires i < |samples|
    ensures !FlaggedAt(mu, samples, i)
  {
    if i > 0 {
      EstimateInBand(samples[..i], lo, hi);
    }
  }

  /** Nothing is ever reported of samples between `lo` and `hi`. */
  ghost predicate QuietBand(mu: real, lo: real, hi: real) {
    forall samples, i: nat | InBand(samples, lo, hi) && i < |samples| :: !FlaggedAt(mu, samples, i)
  }

  lemma NarrowBandQuiet(mu: real, lo: real, hi: real)
    requires mu >= 0.0 && 0.0 < lo && hi - lo <= Threshold(mu)
    ensures QuietBand(mu, lo, hi)
  {
    forall samples, i: nat | InBand(samples, lo, hi) && i < |samples|
      ensures !FlaggedAt(mu, samples, i)
    {
      SteadyNeverFlagged(mu, samples, lo, hi, i);
    }
  }

  /** Going straight from one end of the band to the other is reported if the band is too wide. */
  lemma EndsFlagged(mu: real, lo: real, hi: real)
    requires 0.0 < lo <= hi && hi - lo > Threshold(mu)
    ensures InBand([lo, hi], lo, hi) && FlaggedAt(mu, [lo, hi], 1)
  {
    assert [lo, hi][..1] == [] + [lo];
    EstimateSnoc([], lo);
  }

  /** The bands of which nothing is reported are exactly those no wider than the threshold
      in effect. */
  lemma QuietBandIff(mu: real, lo: real, hi: real)
    requires mu >= 0.0 && 0.0 < lo <= hi
    ensures QuietBand(mu, lo, hi) <==> hi - lo <= Threshold(mu)
  {
    if hi - lo <= Threshold(mu) {
      NarrowBandQuiet(mu, lo, hi);
    } else {
      EndsFlagged(mu, lo, hi);
    }
  }

  /** The detector keeps quiet about every band that is no wider than the configured
      threshold if and only if that is a whole number of milliseconds. */
  lemma ConfiguredBandsQuietIff(mu: real)
    requires mu >= 0.0
    ensures (forall lo, hi | 0.0 < lo && hi - lo <= mu :: QuietBand(mu, lo, hi)) <==> mu == Threshold(mu)
  {
    if mu == Threshold(mu) {
      forall lo, hi | 0.0 < lo && hi - lo <= mu
        ensures QuietBand(mu, lo, hi)
      {
        NarrowBandQuiet(mu, lo, hi);
      }
    } else {
      QuietBandIff(mu, 1.0, 1.0 + mu);
      assert !QuietBand(mu, 1.0, 1.0 + mu);
    }
  }

  /** With a threshold configured between `n` and `n + 1` milliseconds, `n` is what counts. */
  lemma WholeThreshold(mu: real, n: nat)
    requires n as real <= mu < n as real + 1.0
    ensures Threshold(mu) == n as real
  {
    var f := mu.Floor;
    assert f as real <= mu < (f + 1) as real;
    RealOrder(f, n + 1);
    RealOrder(n, f + 1);
  }

  lemma RealOrder(a: int, b: int)
    ensures a < b <==> a as real < b as real
  {
  }

  lemma QuietBandMeans(mu: real, n: nat, lo: real, hi: real)
    requires n as real <= mu < n as real + 1.0 && 0.0 < lo <= hi
    ensures (forall samples, i: nat | i < |samples| && (forall j | 0 <= j < |samples| :: lo <= samples[j] <= hi) ::
               !FlaggedAt(mu, samples, i))
            <==> hi - lo <= n as real
  {
    WholeThreshold(mu, n);
    QuietBandIff(mu, lo, hi);
    if forall samples, i: nat | i < |samples| && (forall j | 0 <= j < |samples| :: lo <= samples[j] <= hi) ::
        !FlaggedAt(mu, samples, i) {
      assert QuietBand(mu, lo, hi);
    }
    if QuietBand(mu, lo, hi) {
      forall samples, i: nat | i < |samples| && (forall j | 0 <= j < |samples| :: lo <= samples[j] <= hi)
        ensures !FlaggedAt(mu, samples, i)
      {
        assert InBand(samples, lo, hi);
      }
    }
  }

  // ---------------------------------------------------------------- a permanent jump

  /** What is left of a jump by `d` after `i` samples of it. */
  function Remaining(d: real, i: nat): real {
    if i == 0 then d else 0.8 * Remaining(d, i - 1)
  }

  function Power(x: real, i: nat): real {
    if i == 0 then 1.0 else x * Power(x, i - 1)
  }

  lemma {:induction false} RemainingIsPower(d: real, i: nat)
    ensures Remaining(d, i) == d * Power(0.8, i)
  {
    if i > 0 {
      RemainingIsPower(d, i - 1);
      var p := Power(0.8, i - 1);
      assert d * (0.8 * p) == 0.8 * (d * p);
    }
  }

  /** `n` samples of the base value, then `k` samples that are larger or smaller by `d`. */
  function Jump(base: real, n: nat, d: real, k: nat): (s: seq<real>)
    ensures |s| == n + k
    ensures forall i | 0 <= i < n + k :: s[i] == if i < n then base else base + d
  {
    seq(n, _ => base) + seq(k, _ => base + d)
  }

  /** Smoothing towards `target` shrinks the distance from it. */
  lemma SmoothingStep(estimate: real, target: real, distance: real)
    requires estimate > 0.0 && estimate == target - distance
    ensures NextEstimate(estimate, target) == target - 0.8 * distance
  {
  }

  /** Once there is a jump the estimate lies between the two values. */
  lemma JumpInBand(base: real, n: nat, d: real, k: nat, m: nat)
    requires n > 0 && base > 0.0 && base + d > 0.0 && 0 < m <= n + k
    ensures Estimate(Jump(base, n, d, k)[..m]) > 0.0
  {
    EstimateInBand(Jump(base, n, d, k)[..m], if d < 0.0 then base + d else base, if d < 0.0 then base else base + d);
  }

  lemma {:induction false} EstimateAfterJump(base: real, n: nat, d: real, k: nat, i: nat)
    requires n > 0 && base > 0.0 && base + d > 0.0 && i <= k
    ensures Estimate(Jump(base, n, d, k)[..n + i]) == base + d - Remaining(d, i)
    decreases i
  {
    var s := Jump(base, n, d, k);
    if i == 0 {
      EstimateInBand(s[..n], base, base);
    } else {
      var before := s[..n + (i - 1)];
      EstimateAfterJump(base, n, d, k, i - 1);
      JumpInBand(base, n, d, k, n + (i - 1));
      EstimateSnoc(before, base + d);
      assert s[..n + i] == before + [base + d];
      SmoothingStep(Estimate(before), base + d, Remaining(d, i - 1));
    }
  }

  lemma DeviationFromEstimate(base: real, n: nat, d: real, k: nat, i: nat)
    requires n > 0 && base > 0.0 && base + d > 0.0 && i < k
    ensures var s := Jump(base, n, d, k);
            Estimate(s[..n + i]) > 0.0 && s[n + i] - Estimate(s[..n + i]) == Remaining(d, i)
  {
    EstimateAfterJump(base, n, d, k, i);
    JumpInBand(base, n, d, k, n + i);
  }

  lemma FlaggedByDeviation(mu: real, estimate: real, rtt: real, x: real)
    requires estimate > 0.0 && rtt - estimate == x
    ensures Flagged(mu, estimate, rtt) <==> Exceeds(Abs(x), Threshold(mu))
  {
  }

  /** After a steady baseline, sample `i` of a permanent jump by `d` is reported exactly
      while what remains of the jump, `|d * 0.8^i|`, exceeds the threshold. */
  lemma JumpFlaggedIff(mu: real, base: real, n: nat, d: real, k: nat, i: nat)
    requires mu >= 0.0 && n > 0 && base > 0.0 && base + d > 0.0 && i < k
    ensures FlaggedAt(mu, Jump(base, n, d, k), n + i) <==> Exceeds(Abs(Remaining(d, i)), Threshold(mu))
  {
    var s := Jump(base, n, d, k);
    DeviationFromEstimate(base, n, d, k, i);
    FlaggedByDeviation(mu, Estimate(s[..n + i]), s[n + i], Remaining(d, i));
  }

  lemma AbsShrinks(x: real, y: real)
    requires y == 0.8 * x
    ensures Abs(y) <= Abs(x)
  {
  }

  /** The same with the number of whole milliseconds `t` that the threshold has. */
  lemma JumpFlaggedMeans(mu: real, t: nat, base: real, n: nat, d: real, k: nat, i: nat)
    requires t as real <= mu < t as real + 1.0 && n > 0 && base > 0.0 && base + d > 0.0 && i < k
    ensures FlaggedAt(mu, Jump(base, n, d, k), n + i) <==>
            d * Power(0.8, i) > t as real || -d * Power(0.8, i) > t as real
  {
    WholeThreshold(mu, t);
    JumpFlaggedIff(mu, base, n, d, k, i);
    RemainingIsPower(d, i);
    assert -d * Power(0.8, i) == -(d * Power(0.8, i));
  }

  /** Reports of a jump form one unbroken run from its first sample on. */
  lemma FlagsArePrefix(mu: real, base: real, n: nat, d: real, k: nat, i: nat)
    requires mu >= 0.0 && n > 0 && base > 0.0 && base + d > 0.0 && i + 1 < k
    requires FlaggedAt(mu, Jump(base, n, d, k), n + (i + 1))
    ensures FlaggedAt(mu, Jump(base, n, d, k), n + i)
  {
    JumpFlaggedIff(mu, base, n, d, k, i);
    JumpFlaggedIff(mu, base, n, d, k, i + 1);
    AbsShrinks(Remaining(d, i), Remaining(d, i + 1));
  }

  lemma {:induction false} RemainingDecays(d: real, i: nat)
    requires d >= 0.0
    ensures 0.0 <= Remaining(d, i) && Remaining(d, i) * (4.0 + i as real) <= 4.0 * d
  {
    if i > 0 {
      RemainingDecays(d, i - 1);
      var r, k := Remaining(d, i - 1), i as real;
      assert 0.8 * r * (4.0 + k) <= r * (3.0 + k);
      assert Remaining(d, i) * (4.0 + k) == 0.8 * r * (4.0 + k);
    }
  }

  lemma {:induction false} RemainingIsOdd(d: real, i: nat)
    ensures Remaining(-d, i) == -Remaining(d, i)
  {
    if i > 0 {
      RemainingIsOdd(d, i - 1);
    }
  }

  lemma {:induction false} RemainingIsNonZero(d: real, i: nat)
    requires d != 0.0
    ensures Remaining(d, i) != 0.0
  {
    if i > 0 {
      RemainingIsNonZero(d, i - 1);
    }
  }

  /** A sample by which what remains of the jump is within the bound. */
  lemma RemainingWithin(d: real, bound: real) returns (i: nat)
    requires bound > 0.0
    ensures Abs(Remaining(d, i)) <= bound
  {
    var a := Abs(d);
    i := (4.0 * a / bound).Floor + 1;
    RemainingDecays(a, i);
    RemainingIsOdd(d, i);
    var r, k := Remaining(a, i), i as real;
    assert k * bound >= 4.0 * a by {
      assert k >= 4.0 * a / bound;
      assert k * bound >= (4.0 * a / bound) * bound == 4.0 * a;
    }
    ScaleBelow(r, bound, 4.0 + k);
  }

  lemma ScaleBelow(x: real, y: real, k: real)
    requires k > 0.0 && x * k <= y * k
    ensures x <= y
  {
  }

  /** Sample `i` of a jump of `k` samples is reported. */
  predicate JumpReported(mu: real, base: real, n: nat, d: real, k: nat, i: nat)
    requires i < k
  {
    FlaggedAt(mu, Jump(base, n, d, k), n + i)
  }

  ghost predicate QuietFrom(mu: real, base: real, n: nat, d: real, i: nat) {
    forall j: nat, k: nat | i <= j < k :: !JumpReported(mu, base, n, d, k, j)
  }

  lemma JumpQuietFrom(mu: real, base: real, n: nat, d: real, i: nat)
    requires mu >= 0.0 && n > 0 && base > 0.0 && base + d > 0.0
    requires Abs(Remaining(d, i)) <= Threshold(mu)
    ensures QuietFrom(mu, base, n, d, i)
  {
    forall j: nat, k: nat | i <= j < k
      ensures !JumpReported(mu, base, n, d, k, j)
    {
      JumpFlaggedIff(mu, base, n, d, k, j);
      RemainingShrinks(d, i, j);
    }
  }

  lemma {:induction false} RemainingShrinks(d: real, i: nat, j: nat)
    requires i <= j
    ensures Abs(Remaining(d, j)) <= Abs(Remaining(d, i))
    decreases j
  {
    if i < j {
      RemainingShrinks(d, i, j - 1);
      AbsShrinks(Remaining(d, j - 1), Remaining(d, j));
    }
  }

  /** The reports of a jump end for good if and only if the threshold in effect is not
      zero. With one configured below a millisecond every sample is reported. */
  lemma FlagsEndIff(mu: real, base: real, n: nat, d: real)
    requires mu >= 0.0 && n > 0 && base > 0.0 && base + d > 0.0 && d != 0.0
    ensures (exists i: nat :: QuietFrom(mu, base, n, d, i)) <==> mu >= 1.0
    ensures mu < 1.0 ==> forall i: nat, k: nat | i < k :: JumpReported(mu, base, n, d, k, i)
  {
    if mu >= 1.0 {
      assert Threshold(mu) >= 1.0;
      var i := RemainingWithin(d, Threshold(mu));
      JumpQuietFrom(mu, base, n, d, i);
    } else {
      assert Threshold(mu) == 0.0;
      forall i: nat, k: nat | i < k
        ensures JumpReported(mu, base, n, d, k, i)
      {
        RemainingIsNonZero(d, i);
        JumpFlaggedIff(mu, base, n, d, k, i);
      }
      forall i: nat
        ensures !QuietFrom(mu, base, n, d, i)
      {
        assert JumpReported(mu, base, n, d, i + 1, i);
      }
    }
  }

  /** With the configured 2.5 ms a jump of 2.2 ms is reported. */
  lemma ConfiguredThresholdTruncates()
    ensures FlaggedAt(2.5, Jump(10.0, 1, 2.2, 1), 1)
  {
    assert 2.5.Floor == 2;
    JumpFlaggedIff(2.5, 10.0, 1, 2.2, 1, 0);
  }

  // ---------------------------------------------------------------- the application

  datatype Packet = Tagged(sent: real) | Untagged

  /** The samples in a batch of packets that is read at time `now`. */
  function SamplesOf(packets: seq<Packet>, now: real): seq<real> {
    if packets == [] then [] else
    SamplesOf(packets[..|packets| - 1], now) +
    match packets[|packets| - 1]
    case Tagged(sent) => [now - sent]
    case Untagged => []
  }

  /** When the tagged packets were sent. */
  ghost function SentTimes(packets: seq<Packet>): seq<real> {
    if packets == [] then [] else
    SentTimes(packets[..|packets| - 1]) +
    if packets[|packets| - 1].Tagged? then [packets[|packets| - 1].sent] else []
  }

  /** Time sent and round-trip time make up the time of arrival. */
  lemma {:induction false} SamplesMatch(packets: seq<Packet>, now: real)
    ensures |SamplesOf(packets, now)| == |SentTimes(packets)|
    ensures forall i | 0 <= i < |SentTimes(packets)| :: SentTimes(packets)[i] + SamplesOf(packets, now)[i] == now
  {
    if packets != [] {
      SamplesMatch(packets[..|packets| - 1], now);
    }
  }

  ghost predicate AreVerdicts(mu: real, samples: seq<real>, detections: seq<bool>) {
    |detections| == |samples| && forall i | 0 <= i < |samples| :: detections[i] <==> FlaggedAt(mu, samples, i)
  }

  lemma VerdictsSnoc(mu: real, samples: seq<real>, rtt: real, detections: seq<bool>, detected: bool)
    requires AreVerdicts(mu, samples, detections)
    requires detected == Flagged(mu, Estimate(samples), rtt)
    ensures AreVerdicts(mu, samples + [rtt], detections + [detected])
  {
    forall j | 0 <= j < |samples| + 1
      ensures (detections + [detected])[j] <==> FlaggedAt(mu, samples + [rtt], j)
    {
      assert (samples + [rtt])[..j] == samples[..j];
      if j < |samples| {
        assert detections[j] <==> FlaggedAt(mu, samples, j);
      } else {
        assert samples[..j] == samples;
      }
    }
  }

  class RttProbeClient {
    const mu: real
    const maxPackets: nat
    var socketOpen: bool
    /** Transmissions that are scheduled and not yet run. */
    var pendingSends: nat
    var packetsSent: nat
    var expectedRtt: real
    /** Everything measured so far. */
    ghost var samples: seq<real>
    var detections: seq<bool>

    ghost predicate Valid()
      reads this
    {
      && pendingSends <= 1 && (pendingSends > 0 ==> socketOpen)
      && packetsSent <= maxPackets
      && expectedRtt == Estimate(samples)
      && AreVerdicts(mu, samples, detections)
    }

    constructor (mu: real, maxPackets: nat)
      ensures Valid() && !socketOpen && pendingSends == 0 && samples == []
      ensures this.mu == mu && this.maxPackets == maxPackets
    {
      this.mu, this.maxPackets := mu, maxPackets;
      socketOpen, pendingSends, packetsSent, expectedRtt := false, 0, 0, 0.0;
      samples, detections := [], [];
    }

    method StartApplication()
      requires Valid() && pendingSends == 0
      modifies this`socketOpen, this`pendingSends, this`packetsSent
      ensures Valid() && socketOpen
      ensures pendingSends == packetsSent == if maxPackets > 0 then 1 else 0
    {
      if !socketOpen {
        socketOpen := true;
      }
      packetsSent := 0;
      SendPacket();
    }

    method StopApplication()
      requires Valid()
      modifies this`socketOpen, this`pendingSends
      ensures Valid() && !socketOpen && pendingSends == 0
    {
      if pendingSends > 0 {
        pendingSends := pendingSends - 1;
      }
      if socketOpen {
        socketOpen := false;
      }
    }

    /** Runs on an open socket, and counts what it sends. */
    method SendPacket()
      requires Valid() && socketOpen && pendingSends == 0
      modifies this`pendingSends, this`packetsSent
      ensures Valid()
      ensures packetsSent == old(packetsSent) + if old(packetsSent) < maxPackets then 1 else 0
      ensures pendingSends == if old(packetsSent) < maxPackets then 1 else 0
    {
      if packetsSent >= maxPackets {
        return;
      }
      packetsSent := packetsSent + 1;
      pendingSends := 1;
    }

    /** The simulator runs a pending transmission: the socket is there. The next one is
        scheduled unless the limit is reached. */
    method FireSend()
      requires Valid() && pendingSends > 0
      modifies this`pendingSends, this`packetsSent
      ensures Valid()
      ensures packetsSent == old(packetsSent) + if old(packetsSent) < maxPackets then 1 else 0
      ensures pendingSends == if old(packetsSent) < maxPackets then 1 else 0
    {
      pendingSends := pendingSends - 1;
      SendPacket();
    }

    /** Every tagged packet adds a sample and a verdict. */
    method HandleRead(packets: seq<Packet>, now: real)
      requires Valid()
      modifies this`expectedRtt, this`samples, this`detections
      ensures Valid()
      ensures old(samples) <= samples && |samples| == |old(samples)| + |SentTimes(packets)|
      ensures forall i | 0 <= i < |SentTimes(packets)| :: SentTimes(packets)[i] + samples[|old(samples)| + i] == now
    {
      hide AreVerdicts, Estimate, FlaggedAt;
      for i := 0 to |packets|
        invariant Valid() && samples == old(samples) + SamplesOf(packets[..i], now)
      {
        assert packets[..i + 1][..i] == packets[..i];
        var packet := packets[i];
        if packet.Tagged? {
          var newRtt := now - packet.sent;
          var oldRtt := if expectedRtt == 0.0 then newRtt else expectedRtt;
          var diff := if newRtt > oldRtt then newRtt - oldRtt else oldRtt - newRtt;
          var detected := diff > Threshold(mu);
          if expectedRtt == 0.0 {
            expectedRtt := newRtt;
          } else {
            expectedRtt := 0.8 * expectedRtt + 0.2 * newRtt;
          }
          EstimateSnoc(samples, newRtt);
          VerdictsSnoc(mu, samples, newRtt, detections, detected);
          samples := samples + [newRtt];
          detections := detections + [detected];
        }
      }
      assert packets[..|packets|] == packets;
      SamplesMatch(packets, now);
    }
  }
}
