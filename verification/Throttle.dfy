/** src/HistoryLogger.cxx: when a history variable is written again, and why that loses nothing. */
module Throttle {
  import opened GemBank

  /** The test of Update: the time since the last write, as an int, has reached the period. */
  predicate Due(time: int, last: int, period: int)
  {
    ToInt32(time - last) >= period
  }

  /** The elapsed time is short of the period, or its low 32 bits, read as unsigned, lie between the period
      and 2^31. */
  predicate InReach(time: int, last: int, period: int)
  {
    time - last < period || period <= (time - last) % (2 * TWO31) < TWO31
  }

  /** Exactly then the truncated test is the intended one. */
  lemma DueAsIntendedIff(time: int, last: int, period: int)
    requires 0 < period && time >= last
    ensures (Due(time, last, period) <==> time - last >= period) <==> InReach(time, last, period)
  {
    Truncated(time - last);
  }

  lemma Truncated(d: int)
    requires d >= 0
    ensures ToInt32(d) == (if d % (2 * TWO31) < TWO31 then d % (2 * TWO31) else d % (2 * TWO31) - 2 * TWO31) <= d
    ensures d < TWO31 ==> ToInt32(d) == d
  {
  }

  /** A variable first seen between 2^31 and 2^32 seconds is never written in that time: the last write
      is initialised to zero, and the difference turns negative. */
  lemma SilentAfter2038(time: int, period: int)
    requires TWO31 <= time < 2 * TWO31 && 0 < period
    ensures !Due(time, 0, period)
  {
    assert ToInt32(time) == time - 2 * TWO31;
  }

  /** The times that are written, of those offered in turn. */
  function Written(times: seq<int>, last: int, period: int): seq<int>
  {
    if times == [] then []
    else if Due(times[0], last, period) then [times[0]] + Written(times[1..], times[0], period)
    else Written(times[1..], last, period)
  }

  /** Each time at least a period after the one before, the first at least a period after `last`. */
  predicate Spaced(times: seq<int>, last: int, period: int)
  {
    times == [] || (times[0] - last >= period && Spaced(times[1..], times[0], period))
  }

  ghost predicate IsSubsequence(xs: seq<int>, times: seq<int>)
  {
    xs == [] ||
    (times != [] &&
     ((xs[0] == times[0] && IsSubsequence(xs[1..], times[1..])) || IsSubsequence(xs, times[1..])))
  }

  /** In order, none before `last`. */
  ghost predicate Ascending(times: seq<int>, last: int)
  {
    && (forall i | 0 <= i < |times| :: last <= times[i])
    && (forall i, j | 0 <= i < j < |times| :: times[i] <= times[j])
  }

  /** The writes are times that were offered, and over any span of time they keep the period. */
  lemma {:induction false} WrittenIsSpaced(times: seq<int>, last: int, period: int)
    requires Ascending(times, last) && 0 < period
    ensures Spaced(Written(times, last, period), last, period)
    ensures IsSubsequence(Written(times, last, period), times)
  {
    if times != [] {
      Truncated(times[0] - last);
      WrittenIsSpaced(times[1..], if Due(times[0], last, period) then times[0] else last, period);
    }
  }

  lemma {:induction false} SubsequenceTail(xs: seq<int>, times: seq<int>)
    requires xs != [] && IsSubsequence(xs, times)
    ensures xs[0] in times && IsSubsequence(xs[1..], times)
  {
    if IsSubsequence(xs, times[1..]) {
      SubsequenceTail(xs, times[1..]);
    } else if xs[1..] != [] {
      assert IsSubsequence(xs[1..], times[1..]);
    }
  }

  // ---------- the throttle as intended ----------

  /** The times that were to be written: the elapsed time taken as it is. */
  function Intended(times: seq<int>, last: int, period: int): seq<int>
  {
    if times == [] then []
    else if times[0] - last >= period then [times[0]] + Intended(times[1..], times[0], period)
    else Intended(times[1..], last, period)
  }

  /** No test of the run meets an elapsed time out of reach. */
  predicate AllInReach(times: seq<int>, last: int, period: int)
  {
    times == [] ||
    (InReach(times[0], last, period) &&
     AllInReach(times[1..], if Due(times[0], last, period) then times[0] else last, period))
  }

  lemma {:induction false} FirstWrittenIsDue(times: seq<int>, last: int, period: int)
    ensures Written(times, last, period) != [] ==> Due(Written(times, last, period)[0], last, period)
  {
    if times != [] && !Due(times[0], last, period) {
      FirstWrittenIsDue(times[1..], last, period);
    }
  }

  /** Over every run the writes are the intended ones exactly when that holds. */
  lemma {:induction false} WrittenAsIntendedIff(times: seq<int>, last: int, period: int)
    requires Ascending(times, last) && 0 < period
    ensures Written(times, last, period) == Intended(times, last, period) <==> AllInReach(times, last, period)
  {
    hide Due, InReach;
    if times != [] {
      var t, rest := times[0], times[1..];
      DueAsIntendedIff(t, last, period);
      NotDueEarly(t, last, period);
      if Due(t, last, period) {
        WrittenAsIntendedIff(rest, t, period);
        SameTail(t, Written(rest, t, period), Intended(rest, t, period));
      } else {
        WrittenAsIntendedIff(rest, last, period);
        FirstWrittenIsDue(rest, last, period);
      }
    }
  }

  lemma NotDueEarly(time: int, last: int, period: int)
    requires last <= time
    ensures Due(time, last, period) ==> time - last >= period
  {
    Truncated(time - last);
  }

  lemma SameTail(t: int, xs: seq<int>, ys: seq<int>)
    ensures [t] + xs == [t] + ys <==> xs == ys
  {
    assert ([t] + xs)[1..] == xs && ([t] + ys)[1..] == ys;
  }

  /** Each time within `gap` of the one before, the first within `gap` of `last`. */
  predicate GapsWithin(times: seq<int>, last: int, gap: int)
  {
    times == [] || (times[0] - last <= gap && GapsWithin(times[1..], times[0], gap))
  }

  /** `prev` is the time before, written or not. */
  lemma {:induction false} GapsInReach(times: seq<int>, prev: int, last: int, period: int)
    requires Ascending(times, prev) && last <= prev < last + period
    requires GapsWithin(times, prev, TWO31 - period)
    ensures AllInReach(times, last, period)
  {
    if times != [] {
      var t, rest := times[0], times[1..];
      Truncated(t - last);
      GapsInReach(rest, t, if Due(t, last, period) then t else last, period);
    }
  }

  /** Times that creep up to the period and then take a leap. */
  function Creeping(from: nat, period: nat): (r: seq<int>)
    requires from < period < TWO31
    ensures |r| > 0 && from < r[0] <= TWO31
    decreases period - from
  {
    if from + 1 == period then [TWO31] else [from + 1] + Creeping(from + 1, period)
  }

  lemma {:induction false} CreepsOutOfReach(from: nat, period: nat)
    requires from < period < TWO31
    ensures Ascending(Creeping(from, period), from) && GapsWithin(Creeping(from, period), from, TWO31 - period + 1)
    ensures !AllInReach(Creeping(from, period), 0, period)
    decreases period - from
  {
    if from + 1 < period {
      CreepsOutOfReach(from + 1, period);
      Truncated(from + 1);
    }
  }

  lemma {:induction false} WiderGaps(times: seq<int>, last: int, gap: int, gap': int)
    requires GapsWithin(times, last, gap) && gap <= gap'
    ensures GapsWithin(times, last, gap')
  {
    if times != [] {
      WiderGaps(times[1..], times[0], gap, gap');
    }
  }

  /** Nothing is lost on any run without a gap of more than `gap` seconds, the one before the first time
      included, exactly when `gap` and the period together stay within 2^31. */
  lemma GapsInReachIff(gap: nat, period: nat)
    requires 0 < period < TWO31
    ensures (forall times | Ascending(times, 0) && GapsWithin(times, 0, gap) :: AllInReach(times, 0, period)) <==>
            gap + period <= TWO31
  {
    hide AllInReach, Ascending, GapsWithin;
    if gap + period <= TWO31 {
      forall times | Ascending(times, 0) && GapsWithin(times, 0, gap) ensures AllInReach(times, 0, period) {
        WiderGaps(times, 0, gap, TWO31 - period);
        GapsInReach(times, 0, 0, period);
      }
    } else {
      CreepsOutOfReach(0, period);
      WiderGaps(Creeping(0, period), 0, TWO31 - period + 1, gap);
    }
  }

  // ---------- the best that can be done ----------

  /** Greedy stays ahead: starting no later, it writes at least as often as any other spaced choice. */
  lemma {:induction false} StaysAhead(times: seq<int>, last: int, xs: seq<int>, last': int, period: int)
    requires Ascending(times, last) && AllInReach(times, last, period) && last <= last' && 0 < period
    requires IsSubsequence(xs, times) && Spaced(xs, last', period)
    ensures |xs| <= |Written(times, last, period)|
    decreases |times|, |xs|
  {
    hide Due, InReach;
    if xs != [] {
      var t, rest := times[0], times[1..];
      DueAsIntendedIff(t, last, period);
      if Due(t, last, period) {
        if xs[0] == t && IsSubsequence(xs[1..], rest) {
          StaysAhead(rest, t, xs[1..], t, period);
        } else {
          SubsequenceTail(xs, rest);
          StaysAhead(rest, t, xs[1..], xs[0], period);
        }
      } else {
        assert xs[0] == t ==> t - last >= period;
        StaysAhead(rest, last, xs, last', period);
      }
    }
  }

  /** What a history from time zero on is: offered times, spaced by the period; the intended ones exactly when
      every test stays in reach, and then no spaced choice of the offered times has more of them. */
  ghost predicate Optimal(written: seq<int>, times: seq<int>, period: int)
  {
    && IsSubsequence(written, times) && Spaced(written, 0, period)
    && (written == Intended(times, 0, period) <==> AllInReach(times, 0, period))
    && (AllInReach(times, 0, period) ==>
          forall xs | IsSubsequence(xs, times) && Spaced(xs, 0, period) :: |xs| <= |written|)
  }

  lemma ThrottleOptimal(times: seq<int>, period: int)
    requires Ascending(times, 0) && 0 < period
    ensures Optimal(Written(times, 0, period), times, period)
  {
    hide AllInReach, Written, Intended, Ascending, IsSubsequence, Spaced;
    WrittenIsSpaced(times, 0, period);
    WrittenAsIntendedIff(times, 0, period);
    forall xs | AllInReach(times, 0, period) && IsSubsequence(xs, times) && Spaced(xs, 0, period)
      ensures |xs| <= |Written(times, 0, period)|
    {
      StaysAhead(times, 0, xs, 0, period);
    }
  }
}
