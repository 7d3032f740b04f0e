/** The memory series: a bounded buffer that thins itself when it overflows. */
module SeriesBuffer {

  /** Every other element from the first on. */
  function Strided<T>(s: seq<T>): (r: seq<T>)
    ensures |r| == (|s| + 1) / 2
  {
    seq((|s| + 1) / 2, i requires 0 <= i < (|s| + 1) / 2 => s[2 * i])
  }

  /** Half the elements, the newest among them: it takes the last place when the stride steps over it. */
  function Thinned<T>(s: seq<T>): (r: seq<T>)
    requires s != []
    ensures |r| == (|s| + 1) / 2 && r[|r| - 1] == s[|s| - 1]
  {
    var kept := Strided(s);
    if (|s| - 1) % 2 != 0 then kept[|kept| - 1 := s[|s| - 1]] else kept
  }

  lemma ThinnedAt<T>(s: seq<T>, i: nat)
    requires s != [] && i < (|s| + 1) / 2 - 1
    ensures Thinned(s)[i] == s[2 * i]
  {}

  function Appended<T>(capacity: nat, s: seq<T>, x: T): seq<T> {
    if |s| + 1 <= capacity then s + [x] else Thinned(s + [x])
  }

  const MAX_DECIMATION := 0xFFFF_FFFF_FFFF_FFFF

  function Doubled(decimation: nat): nat {
    if decimation > MAX_DECIMATION / 2 then MAX_DECIMATION else decimation * 2
  }

  /** Which of the first `n` samples are still held. */
  function Picks(capacity: nat, n: nat): seq<nat> {
    if n == 0 then [] else Appended<nat>(capacity, Picks(capacity, n - 1), n - 1)
  }

  /** How far the first `n` samples have been thinned. */
  function Decimation(capacity: nat, n: nat): nat {
    if n == 0 then 1
    else if |Picks(capacity, n - 1)| + 1 <= capacity then Decimation(capacity, n - 1)
    else Doubled(Decimation(capacity, n - 1))
  }

  predicate Ascending(picks: seq<nat>, n: nat) {
    && (forall i | 0 <= i < |picks| :: picks[i] < n)
    && (forall i, j | 0 <= i < j < |picks| :: picks[i] < picks[j])
  }

  lemma ThinnedAscends(s: seq<nat>, n: nat)
    requires s != [] && Ascending(s, n)
    ensures Ascending(Thinned(s), n)
  {
    hide Thinned;
    var r := Thinned(s);
    forall i, j | 0 <= i < j < |r| ensures r[i] < r[j] {
      ThinnedAt(s, i);
      if j < |r| - 1 {
        ThinnedAt(s, j);
      }
    }
    forall i | 0 <= i < |r| ensures r[i] < n {
      if i < |r| - 1 {
        ThinnedAt(s, i);
      }
    }
  }

  lemma NothingAscends()
    ensures Ascending([], 0)
  {}

  lemma AscendingNext(picks: seq<nat>, n: nat)
    requires Ascending(picks, n)
    ensures Ascending(picks + [n], n + 1)
  {}

  /** The samples held are in order, within capacity, and always end with the newest. */
  lemma {:induction false} PicksHold(capacity: nat, n: nat)
    ensures Ascending(Picks(capacity, n), n)
    ensures |Picks(capacity, n)| <= if capacity == 0 then 1 else capacity
    ensures n > 0 ==> Picks(capacity, n) != [] && Picks(capacity, n)[|Picks(capacity, n)| - 1] == n - 1
    decreases n
  {
    hide Thinned, Ascending;
    if n == 0 {
      assert Ascending([], 0) by { NothingAscends(); }
    } else {
      PicksHold(capacity, n - 1);
      var more: seq<nat> := Picks(capacity, n - 1) + [n - 1];
      AscendingNext(Picks(capacity, n - 1), n - 1);
      if |more| > capacity {
        ThinnedAscends(more, n);
      }
    }
  }

  /** With room for two, the first sample is never lost. */
  lemma {:induction false} FirstStays(capacity: nat, n: nat)
    requires capacity >= 2 && n > 0
    ensures Picks(capacity, n) != [] && Picks(capacity, n)[0] == 0
    decreases n
  {
    hide Thinned, Ascending;
    PicksHold(capacity, n);
    PicksHold(capacity, n - 1);
    if n > 1 {
      FirstStays(capacity, n - 1);
      var more: seq<nat> := Picks(capacity, n - 1) + [n - 1];
      if |more| > capacity {
        ThinnedAt(more, 0);
      }
    }
  }

  /** The first sample survives every run exactly when the buffer has room for at least two. */
  lemma FirstKeptExactly(capacity: nat)
    ensures (forall n: nat | n > 0 :: Picks(capacity, n) != [] && Picks(capacity, n)[0] == 0) <==> capacity >= 2
  {
    if capacity >= 2 {
      forall n: nat | n > 0 ensures Picks(capacity, n) != [] && Picks(capacity, n)[0] == 0 {
        FirstStays(capacity, n);
      }
    } else {
      PicksHold(capacity, 2);
      assert |Picks(capacity, 2)| == 1;
    }
  }

  /** The decimation counter never wraps: it starts at one, and reads one exactly while nothing was dropped. */
  lemma {:induction false} DecimationCounts(capacity: nat, n: nat)
    ensures 1 <= Decimation(capacity, n) <= MAX_DECIMATION
    ensures Decimation(capacity, n) == 1 <==> n <= capacity
    ensures n > 0 ==> Decimation(capacity, n - 1) <= Decimation(capacity, n)
    ensures n <= capacity ==> |Picks(capacity, n)| == n
    decreases n
  {
    hide Thinned, Ascending;
    if n > 0 {
      DecimationCounts(capacity, n - 1);
      PicksHold(capacity, n - 1);
    }
  }

  class SeriesBuffer<T> {
    const capacity: nat
    var samples: seq<T>
    var decimation: nat
    ghost var history: seq<T>

    /** The buffer holds the picked samples of everything appended. */
    ghost predicate Valid()
      reads this
    {
      && decimation == Decimation(capacity, |history|)
      && Ascending(Picks(capacity, |history|), |history|)
      && samples == Selected(history, Picks(capacity, |history|))
    }

    constructor (capacity: nat)
      ensures Valid() && this.capacity == capacity && history == []
    {
      this.capacity, samples, decimation, history := capacity, [], 1, [];
    }

    method Append(sample: T)
      requires Valid()
      modifies this
      ensures Valid() && history == old(history) + [sample] && samples != []
      ensures samples[|samples| - 1] == sample
      ensures |samples| <= if capacity == 0 then 1 else capacity
      ensures capacity >= 2 ==> samples[0] == history[0]
    {
      hide Picks, Decimation, Thinned, Strided, Ascending, Selected;
      AppendKeeps(capacity, history, samples, sample);
      history := history + [sample];
      samples := samples + [sample];
      if |samples| <= capacity {
        return;
      }
      var kept := EveryOther(samples);
      if (|samples| - 1) % 2 != 0 {
        kept := kept[|kept| - 1 := samples[|samples| - 1]];
      }
      ThinnedIs(samples);
      samples := kept;
      decimation := if decimation > MAX_DECIMATION / 2 then MAX_DECIMATION else decimation * 2;
    }
  }

  function Selected<T>(history: seq<T>, picks: seq<nat>): (r: seq<T>)
    requires Ascending(picks, |history|)
    ensures |r| == |picks| && forall i | 0 <= i < |r| :: r[i] == history[picks[i]]
  {
    seq(|picks|, i requires 0 <= i < |picks| => history[picks[i]])
  }

  lemma ThinnedIs<T>(s: seq<T>)
    requires s != []
    ensures var kept := Strided(s);
            Thinned(s) == if (|s| - 1) % 2 != 0 then kept[|kept| - 1 := s[|s| - 1]] else kept
  {}

  lemma NextPicks(capacity: nat, n: nat)
    ensures Picks(capacity, n + 1) == Appended<nat>(capacity, Picks(capacity, n), n)
    ensures Decimation(capacity, n + 1) ==
            if |Picks(capacity, n)| + 1 <= capacity then Decimation(capacity, n) else Doubled(Decimation(capacity, n))
  {}

  lemma SelectMore<T>(history: seq<T>, sample: T, picks: seq<nat>)
    requires Ascending(picks, |history|)
    ensures Ascending(picks + [|history|], |history| + 1)
    ensures Selected(history + [sample], picks + [|history|]) == Selected(history, picks) + [sample]
  {}

  /** Thinning the samples held is thinning the list of those picked. */
  lemma SelectThinned<T>(history: seq<T>, picks: seq<nat>)
    requires picks != [] && Ascending(picks, |history|)
    ensures Ascending(Thinned(picks), |history|)
    ensures Selected(history, Thinned(picks)) == Thinned(Selected(history, picks))
  {
    hide Thinned;
    ThinnedAscends(picks, |history|);
    var all, r := Selected(history, picks), Thinned(picks);
    forall i | 0 <= i < |r| ensures Selected(history, r)[i] == Thinned(all)[i] {
      if i < |r| - 1 {
        ThinnedAt(picks, i);
        ThinnedAt(all, i);
      }
    }
  }

  /** Appending a sample, thinned or not, holds the picked samples of the longer history. */
  lemma AppendKeeps<T>(capacity: nat, history: seq<T>, samples: seq<T>, sample: T)
    requires Ascending(Picks(capacity, |history|), |history|)
    requires samples == Selected(history, Picks(capacity, |history|))
    ensures var n := |history| + 1;
            var after := Appended(capacity, samples, sample);
            && Ascending(Picks(capacity, n), n) && after == Selected(history + [sample], Picks(capacity, n))
            && after != [] && after[|after| - 1] == sample && |after| <= (if capacity == 0 then 1 else capacity)
            && (capacity >= 2 ==> after[0] == (history + [sample])[0])
            && Decimation(capacity, n) ==
               if |samples| + 1 <= capacity then Decimation(capacity, |history|)
               else Doubled(Decimation(capacity, |history|))
  {
    hide Picks, Decimation, Thinned, Ascending;
    var n, picks := |history|, Picks(capacity, |history|);
    PicksHold(capacity, n + 1);
    NextPicks(capacity, n);
    SelectMore(history, sample, picks);
    if |picks| + 1 > capacity {
      SelectThinned(history + [sample], picks + [n]);
    }
    if capacity >= 2 {
      FirstStays(capacity, n + 1);
    }
  }

  /** Copies every other sample, starting with the oldest. */
  method EveryOther<T>(s: seq<T>) returns (kept: seq<T>)
    ensures kept == Strided(s)
  {
    kept := [];
    var i := 0;
    while i < |s|
      invariant i == 2 * |kept| && i <= |s| + 1
      invariant forall k | 0 <= k < |kept| :: kept[k] == s[2 * k]
    {
      kept := kept + [s[i]];
      i := i + 2;
    }
  }
}
