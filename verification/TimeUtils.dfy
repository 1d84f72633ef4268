/** Differences and offsets on timespec, from include/TimeUtils.h. */
module TimeUtils {
  import opened Integers

  const NS_PER_SEC := 1_000_000_000
  const NS_PER_MS := 1_000_000

  class Timespec {
    var sec: int
    var nsec: int

    constructor (sec: int, nsec: int)
      ensures this.sec == sec && this.nsec == nsec
    {
      this.sec, this.nsec := sec, nsec;
    }

    predicate Normal()
      reads this
    {
      0 <= nsec < NS_PER_SEC
    }

    /** The instant, in nanoseconds. */
    function Total(): int
      reads this
    {
      sec * NS_PER_SEC + nsec
    }

    /** Moves the instant by exactly msecs, of either sign, and keeps the struct normal. */
    method AddOffset(msecs: int)
      requires Normal()
      modifies this
      ensures Normal() && Total() == old(Total()) + msecs * NS_PER_MS
      ensures 0 <= nsec < 1_000_000_000
      ensures sec * 1_000_000_000 + nsec == old(sec) * 1_000_000_000 + old(nsec) + msecs * 1_000_000
    {
      sec := sec + CDiv(msecs, 1000);
      nsec := nsec + CMod(msecs, 1000) * NS_PER_MS;
      if nsec >= NS_PER_SEC {
        sec := sec + 1;
        nsec := nsec - NS_PER_SEC;
      } else if nsec < 0 {
        sec := sec - 1;
        nsec := nsec + NS_PER_SEC;
      }
    }

    method SetTimeStruct(msecs: uint32)
      modifies this
      ensures Normal() && Total() == msecs * NS_PER_MS
      ensures 0 <= nsec < 1_000_000_000 && sec * 1_000_000_000 + nsec == msecs * 1_000_000
    {
      sec := msecs / 1000;
      nsec := (msecs % 1000) * NS_PER_MS;
    }
  }

  /** Milliseconds from t2 to t1: seconds and nanoseconds are taken apart, the nanosecond part
      is truncated toward zero, and the sum wraps. */
  function GetDifference(t1: Timespec, t2: Timespec): int
    reads t1, t2
  {
    Difference(t1.sec - t2.sec, t1.nsec - t2.nsec)
  }

  function Difference(dsec: int, dnsec: int): int {
    I32(I32(dsec * 1000) + CDiv(dnsec, NS_PER_MS))
  }

  /** The milliseconds of a difference that the wrapped result does not show. */
  ghost function Unseen(t1: Timespec, t2: Timespec): int
    reads t1, t2
  {
    UnseenOf(t1.sec - t2.sec, t1.nsec - t2.nsec)
  }

  function Whole(dsec: int, dnsec: int): int {
    dsec * 1000 + CDiv(dnsec, NS_PER_MS)
  }

  function UnseenOf(dsec: int, dnsec: int): int {
    Whole(dsec, dnsec) - Difference(dsec, dnsec)
  }

  /** They are a multiple of 2^32, and none short of 24 days. */
  lemma UnseenIsZero(dsec: int, dnsec: int)
    ensures UnseenOf(dsec, dnsec) % TWO_32 == 0
    ensures -NS_PER_SEC < dnsec < NS_PER_SEC && -2_147_482 < dsec < 2_147_482 ==> UnseenOf(dsec, dnsec) == 0
  {
  }

  /** What the truncation costs: but for what is not seen, the result is within a millisecond of
      the true difference, on the side that the sign of the nanosecond part says. */
  lemma DifferenceBounds(dsec: int, dnsec: int)
    requires -NS_PER_SEC < dnsec < NS_PER_SEC
    ensures var ms, ns := Difference(dsec, dnsec), dsec * NS_PER_SEC + dnsec - UnseenOf(dsec, dnsec) * NS_PER_MS;
      if dnsec >= 0 then ms * NS_PER_MS <= ns < (ms + 1) * NS_PER_MS
      else (ms - 1) * NS_PER_MS < ns <= ms * NS_PER_MS
  {
  }

  /** A difference above p means more than p milliseconds, truncated or not; and up to p means
      less than p + 1. */
  lemma DifferenceAbove(dsec: int, dnsec: int, p: nat)
    requires -NS_PER_SEC < dnsec < NS_PER_SEC
    ensures var ns := dsec * NS_PER_SEC + dnsec - UnseenOf(dsec, dnsec) * NS_PER_MS;
      if Difference(dsec, dnsec) > p then ns > p * NS_PER_MS else ns < (p + 1) * NS_PER_MS
  {
    DifferenceBounds(dsec, dnsec);
  }

  /** Moving p milliseconds closer from a difference above p, the result does not wrap anew. */
  lemma UnseenStays(dsec: int, dnsec: int, dsec': int, dnsec': int, p: nat)
    requires -NS_PER_SEC < dnsec < NS_PER_SEC && -NS_PER_SEC < dnsec' < NS_PER_SEC
    requires 0 < p < Difference(dsec, dnsec)
    requires dsec' * NS_PER_SEC + dnsec' == dsec * NS_PER_SEC + dnsec - p * NS_PER_MS
    ensures UnseenOf(dsec', dnsec') == UnseenOf(dsec, dnsec)
  {
    UnseenIsZero(dsec, dnsec);
    var ms := Whole(dsec', dnsec') - UnseenOf(dsec, dnsec);
    StepBounds(dsec, dnsec, dsec', dnsec', p);
    ShiftedI32(ms, UnseenOf(dsec, dnsec));
    DifferenceIsWhole(dsec', dnsec');
  }

  lemma StepBounds(dsec: int, dnsec: int, dsec': int, dnsec': int, p: nat)
    requires -NS_PER_SEC < dnsec < NS_PER_SEC && -NS_PER_SEC < dnsec' < NS_PER_SEC
    requires 0 < p < Difference(dsec, dnsec)
    requires dsec' * NS_PER_SEC + dnsec' == dsec * NS_PER_SEC + dnsec - p * NS_PER_MS
    ensures -1 <= Whole(dsec', dnsec') - UnseenOf(dsec, dnsec) <= Difference(dsec, dnsec)
  {
    hide Difference;
    var d, d' := Whole(dsec, dnsec), Whole(dsec', dnsec');
    assert (d' + p - d - 2) * NS_PER_MS < 0 < (d' + p - d + 2) * NS_PER_MS;
  }

  lemma DifferenceIsWhole(dsec: int, dnsec: int)
    ensures Difference(dsec, dnsec) == I32(Whole(dsec, dnsec))
  {
  }

  lemma ShiftedI32(x: int, k: int)
    requires -TWO_31 <= x < TWO_31 && k % TWO_32 == 0
    ensures I32(x + k) == x
  {
  }
}
