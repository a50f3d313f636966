// ArvStatistic (arvmisc.c): a set of histograms of int values, each with
// its best and worst value, the counter seen at the last new worst, and
// fixed-width bins with "and_less" and "and_more" overflow counters.
//
// ArvStatistic and ArvHistogram are classes whose fields Reset and Fill
// update in place; each histogram's bins are an array. The value a
// histogram holds is the datatype Tally, and the effect of one fill on it
// is the function Filled, about which the lemmas below are proved.
module Statistic {
  import opened Common

  const INT32_MAX: int32 := 0x7fff_ffff
  /** The int that `0x80000000` becomes when stored in an int (gcc). */
  const INT32_MIN: int32 := -0x8000_0000

  function Max(a: int, b: int): int { if a >= b then a else b }

  /** `x++` on a guint64: wraps to 0 past the largest value. */
  function Inc(x: uint64): (r: uint64)
    ensures x < UINT64_MAX ==> r == x + 1
    ensures x == UINT64_MAX ==> r == 0
  {
    ToU64(x + 1)
  }

  /** The contents of one ArvHistogram (its name is left out). */
  datatype Tally = Tally(andMore: uint64, andLess: uint64, lastSeenWorst: uint64,
                         worst: int32, best: int32, bins: seq<uint64>)

  /** The histogram arv_statistic_reset leaves. */
  function EmptyTally(nBins: nat): (t: Tally)
    ensures |t.bins| == nBins && Counted(t) == 0
    ensures t.best == INT32_MAX && t.worst == INT32_MIN && t.lastSeenWorst == 0
  {
    var t := Tally(0, 0, 0, INT32_MIN, INT32_MAX, seq(nBins, _ => 0));
    SumZeros(nBins);
    t
  }

  function Sum(s: seq<uint64>): nat
  {
    if |s| == 0 then 0 else Sum(s[..|s| - 1]) + s[|s| - 1]
  }

  /** Every value that was filled into the tally, wherever it was counted. */
  function Counted(t: Tally): nat
  {
    t.andLess + t.andMore + Sum(t.bins)
  }

  lemma {:induction false} SumZeros(n: nat)
    ensures Sum(seq(n, _ => 0)) == 0
  {
    if n > 0 {
      assert seq(n, _ => 0)[..n - 1] == seq(n - 1, _ => 0);
      SumZeros(n - 1);
    }
  }

  lemma {:induction false} SumBound(s: seq<uint64>, k: nat)
    requires k < |s|
    ensures s[k] <= Sum(s)
  {
    if k < |s| - 1 {
      SumBound(s[..|s| - 1], k);
    }
  }

  lemma {:induction false} SumUpdate(s: seq<uint64>, k: nat, v: uint64)
    requires k < |s|
    ensures Sum(s[k := v]) == Sum(s) - s[k] + v
  {
    if k < |s| - 1 {
      assert s[k := v][..|s| - 1] == s[..|s| - 1][k := v];
      SumUpdate(s[..|s| - 1], k, v);
    } else {
      assert s[k := v][..|s| - 1] == s[..|s| - 1];
    }
  }

  lemma MulLessCancel(a: int, b: int, c: int)
    requires c > 0 && a * c < b * c
    ensures a < b
  {
    assert (b - a) * c > 0;
  }

  /** The bin index as C computes it: the int difference (wrapping on
      overflow) converted to unsigned int, then divided by the step. */
  function Class(value: int32, offset: int32, binStep: uint32): uint32
    requires binStep > 0
  {
    ToU32(ToI32(value - offset)) / binStep
  }

  /** arv_statistic_fill on one histogram. */
  function Filled(t: Tally, value: int32, counter: uint64,
                  nBins: uint32, binStep: uint32, offset: int32): (r: Tally)
    requires binStep > 0 && |t.bins| == nBins
    ensures |r.bins| == nBins
  {
    var best := if t.best > value then value else t.best;
    var newWorst := t.worst < value;
    var worst := if newWorst then value else t.worst;
    var last := if newWorst then counter else t.lastSeenWorst;
    var bin := Class(value, offset, binStep);
    var t' := t.(best := best, worst := worst, lastSeenWorst := last);
    if value < offset then t'.(andLess := Inc(t.andLess))
    else if bin >= nBins then t'.(andMore := Inc(t.andMore))
    else t'.(bins := t.bins[bin := Inc(t.bins[bin])])
  }

  /** The best is the smallest and the worst the largest value seen, and
      the counter is recorded exactly when a value beats the worst. */
  lemma FillExtremes(t: Tally, value: int32, counter: uint64,
                     nBins: uint32, binStep: uint32, offset: int32)
    requires binStep > 0 && |t.bins| == nBins
    ensures var r := Filled(t, value, counter, nBins, binStep, offset);
      && r.best == Min(t.best, value)
      && r.worst == Max(t.worst, value)
      && r.lastSeenWorst == (if value > t.worst then counter else t.lastSeenWorst)
  {
  }

  /** The value lands where it belongs: below the offset in and_less, in
      bin k when it lies in [offset + k*step, offset + (k+1)*step), and past
      the last bin in and_more; nothing else is counted. */
  lemma FillPlacesValue(t: Tally, value: int32, counter: uint64,
                        nBins: uint32, binStep: uint32, offset: int32)
    requires binStep > 0 && |t.bins| == nBins
    ensures var r := Filled(t, value, counter, nBins, binStep, offset);
      && (value < offset ==>
            r.andLess == Inc(t.andLess) && r.andMore == t.andMore && r.bins == t.bins)
      && (offset as int + nBins as int * binStep as int <= value ==>
            r.andMore == Inc(t.andMore) && r.andLess == t.andLess && r.bins == t.bins)
      && (offset <= value < offset as int + nBins as int * binStep as int ==>
            var k := (value - offset) / binStep;
            && offset as int + k * binStep as int <= value < offset as int + (k + 1) * binStep as int
            && k < nBins
            && r.bins == t.bins[k := Inc(t.bins[k])]
            && r.andLess == t.andLess && r.andMore == t.andMore)
  {
    if offset <= value {
      var d := value - offset;
      assert 0 <= d < 0x1_0000_0000;
      assert ToU32(ToI32(d)) == d;
      BinOf(d, binStep, nBins);
    }
  }

  /** The bin of a distance d from the offset: k = d / step is the one
      with k*step <= d < (k+1)*step, and it is a bin of the histogram
      exactly when d lies below nBins*step. */
  lemma BinOf(d: int, step: int, nBins: int)
    requires 0 <= d && step > 0 && nBins >= 0
    ensures d / step * step <= d < (d / step + 1) * step
    ensures d < nBins * step <==> d / step < nBins
  {
    var k := d / step;
    assert k * step <= d < (k + 1) * step;
    if d < nBins * step {
      assert k * step < nBins * step;
      MulLessCancel(k, nBins, step);
    } else {
      assert nBins * step < (k + 1) * step;
      MulLessCancel(nBins, k + 1, step);
    }
  }

  /** One fill counts exactly one value more, unless a counter wraps. */
  lemma FillCountsOnce(t: Tally, value: int32, counter: uint64,
                       nBins: uint32, binStep: uint32, offset: int32)
    requires binStep > 0 && |t.bins| == nBins
    requires Counted(t) < UINT64_MAX
    ensures Counted(Filled(t, value, counter, nBins, binStep, offset)) == Counted(t) + 1
  {
    var bin := Class(value, offset, binStep);
    if value >= offset && bin < nBins {
      SumBound(t.bins, bin);
      SumUpdate(t.bins, bin, Inc(t.bins[bin]));
    }
  }

  /** Successive fills of one histogram with the given values and counters. */
  datatype Sample = Sample(value: int32, counter: uint64)

  function FilledAll(t: Tally, samples: seq<Sample>,
                     nBins: uint32, binStep: uint32, offset: int32): (r: Tally)
    requires binStep > 0 && |t.bins| == nBins
    ensures |r.bins| == nBins
  {
    if |samples| == 0 then t
    else
      var last := samples[|samples| - 1];
      Filled(FilledAll(t, samples[..|samples| - 1], nBins, binStep, offset),
             last.value, last.counter, nBins, binStep, offset)
  }

  function Values(samples: seq<Sample>): (vs: seq<int32>)
    ensures |vs| == |samples|
    ensures forall i :: 0 <= i < |samples| ==> vs[i] == samples[i].value
  {
    if |samples| == 0 then [] else Values(samples[..|samples| - 1]) + [samples[|samples| - 1].value]
  }

  /** From a reset histogram, every value filled lies between best and
      worst, and both are values that were filled. */
  lemma {:induction false} FilledAllExtremes(samples: seq<Sample>,
                                             nBins: uint32, binStep: uint32, offset: int32)
    requires binStep > 0
    ensures var r := FilledAll(EmptyTally(nBins), samples, nBins, binStep, offset);
      && (forall i :: 0 <= i < |samples| ==> r.best <= samples[i].value <= r.worst)
      && (|samples| > 0 ==> r.best in Values(samples) && r.worst in Values(samples))
      && (|samples| == 0 ==> r.best == INT32_MAX && r.worst == INT32_MIN)
  {
    if |samples| > 0 {
      var n := |samples| - 1;
      var front := samples[..n];
      FilledAllExtremes(front, nBins, binStep, offset);
      var p := FilledAll(EmptyTally(nBins), front, nBins, binStep, offset);
      FillExtremes(p, samples[n].value, samples[n].counter, nBins, binStep, offset);
      assert Values(samples) == Values(front) + [samples[n].value];
    }
  }

  /** When some fill beat the initial worst, the recorded counter is that of
      the first sample holding the worst value. */
  lemma {:induction false} FilledAllLastSeenWorst(samples: seq<Sample>,
                                                  nBins: uint32, binStep: uint32, offset: int32)
      returns (i: nat)
    requires binStep > 0
    requires FilledAll(EmptyTally(nBins), samples, nBins, binStep, offset).worst > INT32_MIN
    ensures var r := FilledAll(EmptyTally(nBins), samples, nBins, binStep, offset);
      && i < |samples|
      && samples[i].value == r.worst
      && r.lastSeenWorst == samples[i].counter
      && (forall k :: 0 <= k < i ==> samples[k].value < r.worst)
  {
    var n := |samples| - 1;
    var front := samples[..n];
    var p := FilledAll(EmptyTally(nBins), front, nBins, binStep, offset);
    FillExtremes(p, samples[n].value, samples[n].counter, nBins, binStep, offset);
    if samples[n].value > p.worst {
      FilledAllExtremes(front, nBins, binStep, offset);
      i := n;
    } else {
      i := FilledAllLastSeenWorst(front, nBins, binStep, offset);
    }
  }

  /** From a reset histogram, every fill is counted exactly once. */
  lemma {:induction false} FilledAllCounts(samples: seq<Sample>,
                                           nBins: uint32, binStep: uint32, offset: int32)
    requires binStep > 0
    requires |samples| <= UINT64_MAX
    ensures Counted(FilledAll(EmptyTally(nBins), samples, nBins, binStep, offset)) == |samples|
  {
    if |samples| > 0 {
      var n := |samples| - 1;
      FilledAllCounts(samples[..n], nBins, binStep, offset);
      var p := FilledAll(EmptyTally(nBins), samples[..n], nBins, binStep, offset);
      FillCountsOnce(p, samples[n].value, samples[n].counter, nBins, binStep, offset);
    }
  }

  /** An ArvHistogram; `bins` is its g_new'ed array of guint64. */
  class Histogram {
    var andMore: uint64
    var andLess: uint64
    var lastSeenWorst: uint64
    var worst: int32
    var best: int32
    const bins: array<uint64>

    /** The bins are allocated here; their contents are set by Reset. */
    constructor (nBins: uint32)
      ensures bins.Length == nBins && fresh(bins)
    {
      bins := new uint64[nBins];
    }

    function State(): Tally
      reads this, bins
    {
      Tally(andMore, andLess, lastSeenWorst, worst, best, bins[..])
    }

    /** The body of arv_statistic_reset's loop for one histogram. */
    method Reset()
      modifies this, bins
      ensures State() == EmptyTally(bins.Length)
    {
      lastSeenWorst := 0;
      best := INT32_MAX;
      worst := INT32_MIN;
      andMore, andLess := 0, 0;
      var i := 0;
      while i < bins.Length
        modifies bins
        invariant 0 <= i <= bins.Length
        invariant forall k :: 0 <= k < i ==> bins[k] == 0
      {
        bins[i] := 0;
        i := i + 1;
      }
      assert bins[..] == EmptyTally(bins.Length).bins;
    }
  }

  class ArvStatistic {
    const nHistograms: uint32
    const nBins: uint32
    const binStep: uint32
    const offset: int32
    var counter: uint64
    const histograms: seq<Histogram>

    /** The histograms are distinct objects, each with its own array of
        n_bins bins. */
    ghost predicate Valid()
    {
      && nHistograms > 0 && nBins > 0 && binStep > 0
      && |histograms| == nHistograms
      && (forall j :: 0 <= j < |histograms| ==> histograms[j].bins.Length == nBins)
      && (forall i, j :: 0 <= i < j < |histograms| ==>
            histograms[i] != histograms[j] && histograms[i].bins != histograms[j].bins)
    }

    /** arv_statistic_new after its NULL checks: n_histograms histograms of
        n_bins bins each, then reset. */
    constructor (nHistograms: uint32, nBins: uint32, binStep: uint32, offset: int32)
      requires nHistograms > 0 && nBins > 0 && binStep > 0
      ensures Valid()
      ensures this.nHistograms == nHistograms && this.nBins == nBins
      ensures this.binStep == binStep && this.offset == offset
      ensures counter == 0
      ensures forall j :: 0 <= j < |histograms| ==> histograms[j].State() == EmptyTally(nBins)
    {
      var hs: seq<Histogram> := [];
      var i := 0;
      while i < nHistograms
        invariant 0 <= i <= nHistograms && |hs| == i
        invariant forall j :: 0 <= j < |hs| ==> hs[j].bins.Length == nBins
        invariant forall j :: 0 <= j < |hs| ==> fresh(hs[j]) && fresh(hs[j].bins)
        invariant forall a, b :: 0 <= a < b < |hs| ==> hs[a] != hs[b] && hs[a].bins != hs[b].bins
      {
        var h := new Histogram(nBins);
        hs := hs + [h];
        i := i + 1;
      }
      this.nHistograms := nHistograms;
      this.nBins := nBins;
      this.binStep := binStep;
      this.offset := offset;
      histograms := hs;
      new;
      Reset();
    }

    /** arv_statistic_reset: the counter and every histogram back to empty. */
    method Reset()
      requires Valid()
      modifies this, histograms, set h | h in histograms :: h.bins
      ensures counter == 0
      ensures forall j :: 0 <= j < |histograms| ==> histograms[j].State() == EmptyTally(nBins)
    {
      counter := 0;
      var j := 0;
      while j < nHistograms
        invariant 0 <= j <= nHistograms
        invariant counter == 0
        invariant forall k :: 0 <= k < j ==> histograms[k].State() == EmptyTally(nBins)
      {
        histograms[j].Reset();
        j := j + 1;
      }
    }

    /** arv_statistic_fill: FALSE for an unknown histogram, which changes
        nothing; otherwise the counter is stored and exactly that histogram
        takes the value. */
    method Fill(histogramId: uint32, value: int32, counter: uint64) returns (ok: bool)
      requires Valid()
      modifies this, histograms, set h | h in histograms :: h.bins
      ensures ok <==> histogramId < nHistograms
      ensures this.counter == if ok then counter else old(this.counter)
      ensures ok ==>
                (histograms[histogramId].State()
                 == Filled(old(histograms[histogramId].State()), value, counter, nBins, binStep, offset))
      ensures forall j :: 0 <= j < |histograms| && j != histogramId as int ==>
                (histograms[j].State() == old(histograms[j].State()))
    {
      if histogramId >= nHistograms {
        return false;
      }
      this.counter := counter;
      var h := histograms[histogramId];
      if h.best > value {
        h.best := value;
      }
      if h.worst < value {
        h.worst := value;
        h.lastSeenWorst := counter;
      }
      var bin := Class(value, offset, binStep);
      if value < offset {
        h.andLess := Inc(h.andLess);
      } else if bin >= nBins {
        h.andMore := Inc(h.andMore);
      } else {
        h.bins[bin] := Inc(h.bins[bin]);
      }
      return true;
    }
  }

  /** arv_statistic_new: NULL when any of the three sizes is 0. */
  method NewStatistic(nHistograms: uint32, nBins: uint32, binStep: uint32, offset: int32)
      returns (s: ArvStatistic?)
    ensures s == null <==> (nHistograms == 0 || nBins == 0 || binStep == 0)
    ensures s != null ==> fresh(s) && s.Valid() && s.counter == 0
    ensures s != null ==> forall j :: 0 <= j < |s.histograms| ==> s.histograms[j].State() == EmptyTally(nBins)
  {
    if nHistograms == 0 || nBins == 0 || binStep == 0 {
      return null;
    }
    s := new ArvStatistic(nHistograms, nBins, binStep, offset);
  }

  /** arv_statistic_fill on a possibly NULL statistic: NULL gives FALSE. */
  method FillStatistic(s: ArvStatistic?, histogramId: uint32, value: int32, counter: uint64)
      returns (ok: bool)
    requires s != null ==> s.Valid()
    modifies s
    modifies if s != null then s.histograms else []
    modifies if s != null then set h | h in s.histograms :: h.bins else {}
    ensures s == null ==> !ok
    ensures s != null ==> (ok <==> histogramId < s.nHistograms)
    ensures s != null ==> s.counter == if ok then counter else old(s.counter)
    ensures s != null && ok ==>
              (s.histograms[histogramId].State()
               == Filled(old(s.histograms[histogramId].State()), value, counter, s.nBins, s.binStep, s.offset))
    ensures s != null ==>
              forall j :: 0 <= j < |s.histograms| && j != histogramId as int ==>
                (s.histograms[j].State() == old(s.histograms[j].State()))
  {
    if s == null {
      return false;
    }
    ok := s.Fill(histogramId, value, counter);
  }
}
