/** CPU usage from a stream of /proc/stat samples, in tenths of a percent. */
module CpuUsage {
  import opened CTypes

  datatype Sample = Sample(
    user: uint64, nice: uint64, system: uint64, idle: uint64, iowait: uint64, irq: uint64, softirq: uint64)

  /** What the code adds up, in 64-bit arithmetic. */
  function CurrIdle(s: Sample): uint64 {
    Wrap64(s.idle + s.iowait)
  }

  function CurrTotal(s: Sample): uint64 {
    Wrap64(s.user + s.nice + s.system + CurrIdle(s) + s.irq + s.softirq)
  }

  /** The tracker a caller keeps between samples. */
  datatype Track = Track(valid: bool, lastTotal: uint64, lastIdle: uint64)

  /** The busy share of an interval in thousandths, as 64-bit unsigned arithmetic and the final cast give it. */
  function Share(totalDiff: uint64, idleDiff: uint64): int32 {
    if totalDiff == 0 then 0 else ToInt32(Quotient(Wrap64(Wrap64(totalDiff - idleDiff) * 1000), totalDiff))
  }

  /** Unsigned division. */
  function Quotient(x: nat, t: nat): nat
    requires t > 0
  {
    x / t
  }

  function Reading(t: Track, s: Sample): int32 {
    if !t.valid then 0
    else Share(Wrap64(CurrTotal(s) - t.lastTotal), Wrap64(CurrIdle(s) - t.lastIdle))
  }

  function After(s: Sample): Track {
    Track(true, CurrTotal(s), CurrIdle(s))
  }

  class Tracker {
    var lastTotal: uint64
    var lastIdle: uint64
    var valid: bool

    function View(): Track
      reads this
    {
      Track(valid, lastTotal, lastIdle)
    }

    constructor ()
      ensures !valid
    {
      lastTotal, lastIdle, valid := 0, 0, false;
    }

    /** rl_get_cpu_usage; `sample` is None when /proc/stat cannot be read. */
    method GetCpuUsage(sample: Option<Sample>) returns (r: int32)
      modifies this
      ensures sample.None? ==> r == -1 && View() == old(View())
      ensures sample.Some? ==> valid && (!old(valid) ==> r == 0)
      ensures sample.Some? ==> r == Reading(old(View()), sample.value) && View() == After(sample.value)
    {
      if sample.None? {
        return RL_FAILED;
      }
      var s := sample.value;
      hide Wrap64, ToInt32, Quotient;
      var currIdle: uint64 := Wrap64(s.idle + s.iowait);
      var currTotal: uint64 := Wrap64(s.user + s.nice + s.system + currIdle + s.irq + s.softirq);
      assert currIdle == CurrIdle(s) && currTotal == CurrTotal(s);
      hide CurrIdle, CurrTotal;
      if !valid {
        lastTotal, lastIdle, valid := currTotal, currIdle, true;
        return 0;
      }
      var totalDiff: int := Wrap64(currTotal - lastTotal);
      var idleDiff: int := Wrap64(currIdle - lastIdle);
      lastTotal, lastIdle := currTotal, currIdle;
      if totalDiff == 0 {
        return 0;
      }
      var busy: int := Wrap64(totalDiff - idleDiff);
      return ToInt32(Quotient(Wrap64(busy * 1000), totalDiff));
    }
  }

  /** What a caller reads who samples again and again. */
  function Readings(t: Track, samples: seq<Sample>): seq<int32>
    decreases |samples|
  {
    if samples == [] then [] else [Reading(t, samples[0])] + Readings(After(samples[0]), samples[1..])
  }

  // ----- the true counters, without bounds -----

  function Idle(s: Sample): nat {
    s.idle + s.iowait
  }

  function Total(s: Sample): nat {
    s.user + s.nice + s.system + Idle(s) + s.irq + s.softirq
  }

  function Busy(a: Sample, b: Sample): int {
    (Total(b) - Total(a)) - (Idle(b) - Idle(a))
  }

  /** No counter of `b` is behind that of `a`. */
  predicate NotBehind(a: Sample, b: Sample) {
    && a.user <= b.user && a.nice <= b.nice && a.system <= b.system && a.idle <= b.idle
    && a.iowait <= b.iowait && a.irq <= b.irq && a.softirq <= b.softirq
  }

  /** Nor does the sum or a thousand times the busy time overflow 64 bits. */
  predicate Follows(a: Sample, b: Sample) {
    NotBehind(a, b) && Total(b) < TWO64 && Busy(a, b) * 1000 < TWO64
  }

  /** Each sample follows the one before it. */
  predicate Steady(samples: seq<Sample>) {
    forall i :: 0 < i < |samples| ==> Follows(samples[i-1], samples[i])
  }

  /** `r` thousandths of `total` is `busy`, rounded down. */
  predicate IsShare(r: int, busy: int, total: int) {
    r * total <= 1000 * busy < (r + 1) * total
  }

  lemma SmallWraps(x: nat)
    requires x < TWO64
    ensures Wrap64(x) == x
  {
  }

  /** Division rounds down. */
  lemma QuotientIs(x: nat, t: nat)
    requires t > 0
    ensures Quotient(x, t) * t <= x < (Quotient(x, t) + 1) * t
  {
  }

  lemma QuotientBound(x: nat, t: nat, k: nat)
    requires t > 0 && x <= k * t
    ensures Quotient(x, t) <= k
  {
  }

  lemma QuotientIsShare(busy: nat, t: nat)
    requires t > 0
    ensures IsShare(Quotient(busy * 1000, t), busy, t)
  {
    hide Quotient;
    QuotientIs(busy * 1000, t);
  }

  /** The share of `t` that is not `x`, if nothing overflows on the way to the result. */
  lemma ShareIs(t: uint64, x: uint64)
    requires t > 0 && x <= t && (t - x) * 1000 < TWO64 && Quotient((t - x) * 1000, t) <= INT_MAX
    ensures Share(t, x) == Quotient((t - x) * 1000, t)
  {
    hide Wrap64, Quotient;
    SmallWraps(t - x);
    SmallWraps((t - x) * 1000);
  }

  lemma SumsAreTrue(s: Sample)
    requires Total(s) < TWO64
    ensures CurrTotal(s) == Total(s) && CurrIdle(s) == Idle(s)
  {
    hide Wrap64;
    SmallWraps(Idle(s));
    SmallWraps(Total(s));
  }

  /** What the code takes for the two differences is their true value modulo 2^64. */
  lemma ReadingOfSums(a: Sample, b: Sample)
    requires Total(a) < TWO64 && Total(b) < TWO64
    ensures Reading(After(a), b) == Share(Wrap64(Total(b) - Total(a)), Wrap64(Idle(b) - Idle(a)))
  {
    hide Wrap64, Share;
    SumsAreTrue(a);
    SumsAreTrue(b);
  }

  lemma TotalsGrow(a: Sample, b: Sample)
    requires Follows(a, b)
    ensures Total(a) <= Total(b) < TWO64 && 0 <= Idle(b) - Idle(a) <= Total(b) - Total(a)
  {
    hide Busy;
  }

  lemma DifferencesAreTrue(a: Sample, b: Sample)
    requires Follows(a, b)
    ensures 0 <= Idle(b) - Idle(a) <= Total(b) - Total(a)
    ensures Reading(After(a), b) == Share(Total(b) - Total(a), Idle(b) - Idle(a))
  {
    hide Follows, Wrap64, Reading, Share, After, Total, Idle;
    TotalsGrow(a, b);
    ReadingOfSums(a, b);
    SmallWraps(Total(b) - Total(a));
    SmallWraps(Idle(b) - Idle(a));
  }

  /** Between two samples that follow each other the reading is the busy share rounded down, so it is in 0..1000. */
  lemma ReadingIsShare(a: Sample, b: Sample)
    requires Follows(a, b)
    ensures 0 <= Reading(After(a), b) <= 1000
    ensures Total(a) < Total(b) ==> IsShare(Reading(After(a), b), Busy(a, b), Total(b) - Total(a))
    ensures Total(a) == Total(b) ==> Busy(a, b) == 0 && Reading(After(a), b) == 0
  {
    DifferencesAreTrue(a, b);
    var t: int, x: int := Total(b) - Total(a), Idle(b) - Idle(a);
    assert Busy(a, b) == t - x;
    hide Reading, After, Total, Idle, Busy;
    ShareInRange(t, x);
  }

  /** The same in the seven counters, with idle and iowait as idle time and all others as busy time. */
  lemma ReadingInCounters(a: Sample, b: Sample)
    requires Follows(a, b)
    ensures var busy := (b.user - a.user) + (b.nice - a.nice) + (b.system - a.system) + (b.irq - a.irq)
                        + (b.softirq - a.softirq);
            var total := busy + (b.idle - a.idle) + (b.iowait - a.iowait);
            total > 0 ==> Reading(After(a), b) * total <= 1000 * busy < (Reading(After(a), b) + 1) * total
  {
    ReadingIsShare(a, b);
    hide Reading, After;
  }

  lemma ShareInRange(t: int, x: int)
    requires 0 <= x <= t < TWO64 && (t - x) * 1000 < TWO64
    ensures 0 <= Share(t, x) <= 1000
    ensures t > 0 ==> IsShare(Share(t, x), t - x, t)
    ensures t == 0 ==> Share(t, x) == 0
  {
    if t > 0 {
      hide Share, Quotient, IsShare;
      QuotientBound((t - x) * 1000, t, 1000);
      ShareIs(t, x);
      QuotientIsShare(t - x, t);
    }
  }

  // ----- merged intervals -----

  /** Every reading over a part in which time passes is between `lo` and `hi`. */
  predicate PartsWithin(samples: seq<Sample>, lo: int, hi: int) {
    forall i :: 0 < i < |samples| && Total(samples[i-1]) < Total(samples[i])
      ==> lo <= Reading(After(samples[i-1]), samples[i]) <= hi
  }

  /** `busy` out of `total` is at least `lo` thousandths and less than `hi` + 1, with nothing out of nothing allowed. */
  predicate Within(busy: int, total: int, lo: int, hi: int) {
    lo * total <= 1000 * busy <= (hi + 1) * total && (total > 0 ==> 1000 * busy < (hi + 1) * total)
  }

  lemma WithinAdds(b: int, t: int, c: int, u: int, lo: int, hi: int)
    requires t >= 0 && u >= 0 && Within(b, t, lo, hi) && Within(c, u, lo, hi)
    ensures Within(b + c, t + u, lo, hi)
  {
  }

  lemma BusyAdds(a: Sample, b: Sample, c: Sample)
    ensures Busy(a, c) == Busy(a, b) + Busy(b, c)
  {
  }

  lemma ShareWithin(r: int, busy: int, total: int, lo: int, hi: int)
    requires total > 0 && IsShare(r, busy, total) && lo <= r <= hi
    ensures Within(busy, total, lo, hi)
  {
  }

  lemma PartWithin(a: Sample, b: Sample, lo: int, hi: int)
    requires Follows(a, b) && (Total(a) < Total(b) ==> lo <= Reading(After(a), b) <= hi)
    ensures Total(a) <= Total(b) && Within(Busy(a, b), Total(b) - Total(a), lo, hi)
  {
    ReadingIsShare(a, b);
    hide Reading, After;
    if Total(a) < Total(b) {
      ShareWithin(Reading(After(a), b), Busy(a, b), Total(b) - Total(a), lo, hi);
    }
  }

  lemma PartsAdd(a: Sample, b: Sample, c: Sample, lo: int, hi: int)
    requires Total(a) <= Total(b) <= Total(c)
    requires Within(Busy(a, b), Total(b) - Total(a), lo, hi) && Within(Busy(b, c), Total(c) - Total(b), lo, hi)
    ensures Within(Busy(a, c), Total(c) - Total(a), lo, hi)
  {
    BusyAdds(a, b, c);
    hide Within, Busy, Total;
    WithinAdds(Busy(a, b), Total(b) - Total(a), Busy(b, c), Total(c) - Total(b), lo, hi);
    assert Total(b) - Total(a) + (Total(c) - Total(b)) == Total(c) - Total(a);
  }

  lemma {:induction false} PartsBoundSums(samples: seq<Sample>, lo: int, hi: int, n: nat)
    requires Steady(samples) && PartsWithin(samples, lo, hi) && 0 < n <= |samples|
    ensures NotBehind(samples[0], samples[n-1]) && Total(samples[0]) <= Total(samples[n-1])
    ensures Within(Busy(samples[0], samples[n-1]), Total(samples[n-1]) - Total(samples[0]), lo, hi)
  {
    if n > 1 {
      var a, b := samples[n-2], samples[n-1];
      assert Follows(a, b);
      assert Total(a) < Total(b) ==> lo <= Reading(After(a), b) <= hi;
      hide Steady, PartsWithin, Reading, After, Within, Busy, Follows, Total;
      PartsBoundSums(samples, lo, hi, n - 1);
      PartWithin(a, b, lo, hi);
      PartsAdd(samples[0], a, b, lo, hi);
    }
  }

  /**
    * Over any run of samples, the reading for the whole interval lies between the least and the greatest reading of
    * the parts in which time passes.
    */
  lemma MergedReadingIsBetween(samples: seq<Sample>, lo: int, hi: int)
    requires |samples| > 1 && Steady(samples) && PartsWithin(samples, lo, hi)
    requires Total(samples[0]) < Total(samples[|samples|-1]) && Busy(samples[0], samples[|samples|-1]) * 1000 < TWO64
    ensures lo <= Reading(After(samples[0]), samples[|samples|-1]) <= hi
  {
    var a, b := samples[0], samples[|samples|-1];
    assert Total(b) < TWO64 by { assert Follows(samples[|samples|-2], b); }
    PartsBoundSums(samples, lo, hi, |samples|);
    ReadingIsShare(a, b);
    hide Steady, PartsWithin, Reading, After, Busy, Follows, Total, Within, IsShare;
    ShareSqueezed(Reading(After(a), b), Busy(a, b), Total(b) - Total(a), lo, hi);
  }

  lemma ShareSqueezed(r: int, busy: int, total: int, lo: int, hi: int)
    requires total > 0 && IsShare(r, busy, total) && Within(busy, total, lo, hi)
    ensures lo <= r <= hi
  {
    Squeeze(lo, r + 1, total);
    Squeeze(r, hi + 1, total);
  }

  lemma Squeeze(x: int, y: int, t: int)
    requires t > 0 && x * t < y * t
    ensures x < y
  {
  }

  /** All readings of a run after its first are in range; the first only arms the tracker. */
  lemma {:induction false} RunStaysInRange(t: Track, samples: seq<Sample>)
    requires Steady(samples)
    requires t.valid && samples != [] ==> exists s :: After(s) == t && Follows(s, samples[0])
    ensures forall r :: r in Readings(t, samples) ==> 0 <= r <= 1000
    decreases |samples|
  {
    if samples != [] {
      if t.valid {
        var s :| After(s) == t && Follows(s, samples[0]);
        ReadingIsShare(s, samples[0]);
      }
      assert forall i :: 0 < i < |samples[1..]| ==> samples[1..][i-1] == samples[i] && samples[1..][i] == samples[i+1];
      assert |samples| > 1 ==> Follows(samples[0], samples[1..][0]);
      RunStaysInRange(After(samples[0]), samples[1..]);
    }
  }

  /**
    * The product of the busy time and 1000 is taken modulo 2^64: if the counters only grow, the reading is the busy
    * share if and only if that product is below 2^64.
    */
  lemma ShareExactlyBelowOverflow(a: Sample, b: Sample)
    requires NotBehind(a, b) && Total(a) < Total(b) < TWO64
    ensures IsShare(Reading(After(a), b), Busy(a, b), Total(b) - Total(a)) <==> Busy(a, b) * 1000 < TWO64
  {
    if Busy(a, b) * 1000 < TWO64 {
      ReadingIsShare(a, b);
    } else {
      ReadingOfSums(a, b);
      var t: int, x: int := Total(b) - Total(a), Idle(b) - Idle(a);
      assert Busy(a, b) == t - x && 0 <= x <= t;
      SmallWraps(t);
      SmallWraps(x);
      hide Wrap64, Reading, Share, After, Total, Idle, Busy, IsShare;
      OverflowedShare(t, x);
    }
  }

  lemma OverflowedShare(t: int, x: int)
    requires 0 <= x <= t < TWO64 && (t - x) * 1000 >= TWO64
    ensures !IsShare(Share(t, x), t - x, t)
  {
    var w := Wrap64((t - x) * 1000);
    var turns := Wrap64Turns((t - x) * 1000);
    assert turns >= 1;
    SmallWraps(t - x);
    hide Wrap64, Quotient, IsShare;
    QuotientIs(w, t);
    QuotientBound(w, t, 1000);
    assert Share(t, x) == Quotient(w, t);
    hide Share;
    TooSmall(Quotient(w, t), t - x, t, w);
  }

  lemma TooSmall(q: int, busy: int, t: int, w: int)
    requires q * t <= w <= 1000 * busy - TWO64 && t < TWO64
    ensures !IsShare(q, busy, t)
  {
    assert (q + 1) * t == q * t + t;
  }

  lemma DifferenceWraps(t: nat, x: int)
    requires 0 <= t - x < TWO64
    ensures Wrap64(t - Wrap64(x)) == t - x
  {
    var turns := Wrap64Turns(x);
    Wrap64Is(t - Wrap64(x), t - x, turns);
  }

  /** A share of at most 1000 thousandths is one of less than 1001. */
  lemma ThousandExactly(r: int, busy: int, t: int)
    requires t > 0 && IsShare(r, busy, t)
    ensures r <= 1000 <==> 1000 * busy < 1001 * t
  {
    if r <= 1000 {
      MulMono(r + 1, 1001, t);
    } else {
      MulMono(1001, r, t);
    }
  }

  lemma WrappedShareIs(t: nat, x: int)
    requires 0 < t < TWO64 && 0 <= (t - x) * 1000 < TWO64 && Quotient((t - x) * 1000, t) <= INT_MAX
    ensures Share(t, Wrap64(x)) == Quotient((t - x) * 1000, t)
  {
    hide Wrap64, Quotient;
    DifferenceWraps(t, x);
    SmallWraps((t - x) * 1000);
  }

  lemma ShareExactly(t: nat, x: int)
    requires 0 < t < TWO64 && 0 <= (t - x) * 1000 < TWO64 && Quotient((t - x) * 1000, t) <= INT_MAX
    ensures 0 <= Share(t, Wrap64(x)) <= 1000 <==> 1000 * (t - x) < 1001 * t
  {
    hide Wrap64, Quotient, IsShare, Share;
    WrappedShareIs(t, x);
    QuotientIsShare(t - x, t);
    ThousandExactly(Quotient((t - x) * 1000, t), t - x, t);
  }

  /**
    * Without the promise that idle time never falls: the reading leaves 0..1000 if and only if idle time has fallen
    * by at least a thousandth of the time that passed.
    */
  lemma InRangeExactly(a: Sample, b: Sample)
    requires Total(a) < Total(b) < TWO64
    requires 0 <= Busy(a, b) * 1000 < TWO64 && Quotient(Busy(a, b) * 1000, Total(b) - Total(a)) <= INT_MAX
    ensures 0 <= Reading(After(a), b) <= 1000 <==> 1000 * (Idle(a) - Idle(b)) < Total(b) - Total(a)
  {
    ReadingOfSums(a, b);
    SmallWraps(Total(b) - Total(a));
    hide Wrap64, Reading, Share, After, Total, Idle, Quotient;
    ShareExactly(Total(b) - Total(a), Idle(b) - Idle(a));
  }
}
