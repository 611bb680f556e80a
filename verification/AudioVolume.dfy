/** audio_volume.cc: the histogram of sample values and the mean power taken
    from it in 64-bit unsigned arithmetic. */
module AudioVolume {
  import opened Numbers
  import opened Options
  import opened Words

  const BINS: nat := 0x1_0000        // bins that print_stats reads
  const FULL_SCALE: nat := 0x8000
  const MAX_POWER: nat := 0x4000_0000 // 0x8000 * 0x8000

  // ----- filter_frame_f

  // static_cast<int> of a double: towards zero.
  function Truncate(x: real): (n: int)
    ensures x >= 0.0 ==> n as real <= x < n as real + 1.0
    ensures x < 0.0 ==> n as real - 1.0 < x <= n as real
  {
    if x >= 0.0 then x.Floor else -((-x).Floor)
  }

  // The bin of a sample: 0 for -1 and below, 0x10000 for 1 and above, and
  // between them the sample in steps of 1 / 0x8000, towards silence.
  function Bin(sample: real): (bin: nat)
    ensures bin <= BINS
    ensures 0.0 <= sample < 1.0 ==> 0 <= bin - FULL_SCALE && (bin - FULL_SCALE) as real <= sample * 32768.0 < (bin - FULL_SCALE + 1) as real
    ensures -1.0 < sample < 0.0 ==> bin - FULL_SCALE <= 0 && (bin - FULL_SCALE - 1) as real < sample * 32768.0 <= (bin - FULL_SCALE) as real
    ensures bin == BINS <==> sample >= 1.0
    ensures bin == 0 <==> sample <= -1.0
  {
    var his := Truncate(sample * 32768.0);
    Max(Min(his, 0x8000), -0x8000) + 0x8000
  }

  function Bins(pcm: seq<real>): (bins: seq<nat>)
    ensures |bins| == |pcm| && forall i :: 0 <= i < |pcm| ==> bins[i] == Bin(pcm[i])
  {
    seq(|pcm|, i requires 0 <= i < |pcm| => Bin(pcm[i]))
  }

  // All samples of some planes, the first n of each.
  function Samples(planes: seq<seq<real>>, n: nat): seq<real>
    requires forall p :: 0 <= p < |planes| ==> n <= |planes[p]|
  {
    if planes == [] then []
    else Samples(planes[..|planes| - 1], n) + planes[|planes| - 1][..n]
  }

  // A histogram after some more bins were counted.
  ghost function Counted(histogram: seq<nat>, bins: seq<nat>): (r: seq<nat>)
    ensures |r| == |histogram|
    ensures forall b :: 0 <= b < |histogram| ==> r[b] == histogram[b] + multiset(bins)[b]
  {
    seq(|histogram|, b requires 0 <= b < |histogram| => histogram[b] + multiset(bins)[b])
  }

  lemma CountOne(histogram: seq<nat>, bins: seq<nat>, bin: nat)
    requires bin < |histogram|
    ensures Counted(histogram, bins + [bin]) == Counted(histogram, bins)[bin := Counted(histogram, bins)[bin] + 1]
  {
  }

  lemma CountNone(histogram: seq<nat>)
    ensures Counted(histogram, []) == histogram
  {
  }

  // Every sample of the frame is counted once, in its own bin.
  method FilterFrameF(histogram: array<nat>, planar: bool, channels: nat, nbSamples: nat, data: seq<seq<real>>)
    requires histogram.Length == BINS + 1
    requires |data| == (if planar then channels else 1)
    requires forall p :: 0 <= p < |data| ==> |data[p]| >= (if planar then nbSamples else nbSamples * channels)
    modifies histogram
    ensures var samples := Samples(data, if planar then nbSamples else nbSamples * channels);
            histogram[..] == Counted(old(histogram[..]), Bins(samples))
  {
    hide Counted, Bins, Bin;
    var n := if planar then nbSamples else nbSamples * channels;
    var nbPlanes := if planar then channels else 1;
    ghost var before := histogram[..];
    ghost var done: seq<real> := [];
    NoBins();
    CountNone(before);
    for plane := 0 to nbPlanes
      invariant done == Samples(data[..plane], n)
      invariant histogram[..] == Counted(before, Bins(done))
    {
      CountPlane(histogram, data[plane], n, before, done);
      done := done + data[plane][..n];
      assert data[..plane + 1][..plane] == data[..plane];
    }
    assert data[..nbPlanes] == data;
  }

  // The inner loop, over one plane.
  method CountPlane(histogram: array<nat>, pcm: seq<real>, n: nat, ghost before: seq<nat>, ghost done: seq<real>)
    requires histogram.Length == BINS + 1 == |before| && n <= |pcm|
    requires histogram[..] == Counted(before, Bins(done))
    modifies histogram
    ensures histogram[..] == Counted(before, Bins(done + pcm[..n]))
  {
    hide Counted, Bins, Bin;
    assert done + pcm[..0] == done;
    for i := 0 to n
      invariant histogram[..] == Counted(before, Bins(done + pcm[..i]))
    {
      var his := Bin(pcm[i]);
      ghost var seen := done + pcm[..i];
      assert seen + [pcm[i]] == done + pcm[..i + 1];
      CountOne(before, Bins(seen), his);
      OneMoreBin(seen, pcm[i]);
      histogram[his] := histogram[his] + 1;
    }
  }

  lemma OneMoreBin(pcm: seq<real>, x: real)
    ensures Bins(pcm + [x]) == Bins(pcm) + [Bin(x)]
  {
  }

  lemma NoBins()
    ensures Bins([]) == []
  {
  }

  // ----- print_stats

  function Term(weight: nat -> nat, histogram: seq<nat>, d: nat, i: nat): nat
    requires i < |histogram| && d > 0
  {
    weight(i) * (histogram[i] / d)
  }

  // Sum of weight(i) * (histogram[i] / d) over the first n bins.
  function Sum(weight: nat -> nat, histogram: seq<nat>, d: nat, n: nat): nat
    requires n <= |histogram| && d > 0
  {
    if n == 0 then 0 else Sum(weight, histogram, d, n - 1) + Term(weight, histogram, d, n - 1)
  }

  function One(i: nat): nat { 1 }

  // The power of a sample in bin i.
  function Squared(a: nat): nat { a * a }

  function Square(i: nat): nat {
    Squared(if i >= FULL_SCALE then i - FULL_SCALE else FULL_SCALE - i)
  }

  // av_log2, which gives 0 for 0.
  function Log2(v: nat): nat {
    if v < 2 then 0 else 1 + Log2(v / 2)
  }

  // What the values are divided by for a given number of samples.
  function Divisor(nbSamples: nat): (d: nat)
    ensures d > 0
  {
    Pow2Positive(Log2(nbSamples / 0x2_0000_0000));
    Pow2(Log2(nbSamples / 0x2_0000_0000))
  }

  function Rounded(power: nat, n: nat): nat
    requires n > 0
  {
    QuotientIsNat(power + n / 2, n);
    (power + n / 2) / n
  }

  // The sums of print_stats, without wrap.
  function Total(histogram: seq<nat>): nat
    requires |histogram| > BINS
  {
    Sum(One, histogram, 1, BINS)
  }

  function ShiftedSamples(histogram: seq<nat>): nat
    requires |histogram| > BINS
  {
    Sum(One, histogram, Divisor(Total(histogram)), BINS)
  }

  function Power(histogram: seq<nat>): nat
    requires |histogram| > BINS
  {
    Sum(Square, histogram, Divisor(Total(histogram)), BINS)
  }

  // a + b in uint64_t
  function Plus64(a: nat, b: nat): nat {
    (a + b) % TWO_64
  }

  // Line 70 as the machine computes it.
  function Mean64(power: nat, n: nat): nat
    requires n > 0
  {
    var sum := Plus64(power, n / 2);
    QuotientIsNat(sum, n);
    sum / n
  }

  lemma QuotientIsNat(x: nat, n: nat)
    requires n > 0
    ensures x / n >= 0
  {
  }

  // None is an early return of 0; the value is what logdb is applied to.
  method PrintStats(histogram: array<nat>) returns (power: Option<nat>)
    requires histogram.Length == BINS + 1 && Total(histogram[..]) < TWO_64
    ensures Total(histogram[..]) == 0 ==> power == None
    ensures Total(histogram[..]) > 0 ==>
      var n := ShiftedSamples(histogram[..]);
      n > 0 && power == Some(Mean64(Power(histogram[..]), n))
  {
    hide Divisor, Sum, Square, One, Power, ShiftedSamples, Mean64;
    ghost var h := histogram[..];
    var nbSamples: nat := 0;
    SumOfNone(h, 1);
    for i := 0 to BINS
      invariant nbSamples == Sum(One, h, 1, i)
    {
      SumOfOneMore(h, 1, i);
      SumGrows(One, h, 1, i + 1, BINS);
      nbSamples := Plus64(nbSamples, histogram[i]);
    }
    if nbSamples == 0 {
      return None;
    }
    var sum, nbSamplesShift := SumShifted(histogram, Divisor(nbSamples));
    MeanFits(h);
    if nbSamplesShift == 0 {
      assert false;
      return None;
    }
    sum := Mean64(sum, nbSamplesShift);
    if sum > MAX_POWER {
      assert false;
      return None;
    }
    return Some(sum);
  }

  // The loop over the shifted values.
  method SumShifted(histogram: array<nat>, d: nat) returns (sum: nat, nbSamplesShift: nat)
    requires histogram.Length == BINS + 1 && 0 < Total(histogram[..]) < TWO_64 && d == Divisor(Total(histogram[..]))
    ensures sum == Power(histogram[..]) && nbSamplesShift == ShiftedSamples(histogram[..])
  {
    hide Divisor, Sum, Square, One, Term;
    ghost var h := histogram[..];
    sum, nbSamplesShift := 0, 0;
    SumsFit(h);
    SumOfNone(h, d);
    for i := 0 to BINS
      invariant nbSamplesShift == Sum(One, h, d, i) && sum == Sum(Square, h, d, i)
    {
      SumOfOneMore(h, d, i);
      SumGrows(One, h, d, i + 1, BINS);
      SumGrows(Square, h, d, i + 1, BINS);
      var value := histogram[i] / d;
      nbSamplesShift := Plus64(nbSamplesShift, value);
      sum := Plus64(sum, Square(i) * value);
    }
  }

  lemma SumOfNone(h: seq<nat>, d: nat)
    requires d > 0
    ensures Sum(One, h, d, 0) == 0 == Sum(Square, h, d, 0)
  {
  }

  lemma SumOfOneMore(h: seq<nat>, d: nat, i: nat)
    requires i < |h| && d > 0
    ensures Sum(One, h, d, i + 1) == Sum(One, h, d, i) + h[i] / d
    ensures Sum(Square, h, d, i + 1) == Sum(Square, h, d, i) + Square(i) * (h[i] / d)
  {
    hide Square;
  }

  lemma {:induction false} SumGrows(weight: nat -> nat, h: seq<nat>, d: nat, m: nat, n: nat)
    requires m <= n <= |h| && d > 0
    ensures Sum(weight, h, d, m) <= Sum(weight, h, d, n)
    decreases n
  {
    hide Term;
    if m < n {
      SumGrows(weight, h, d, m, n - 1);
    }
  }

  // Dividing each value loses less than d of each.
  lemma {:induction false} ShiftLoses(h: seq<nat>, d: nat, n: nat)
    requires n <= |h| && d > 0
    ensures d * Sum(One, h, d, n) <= Sum(One, h, 1, n) <= d * Sum(One, h, d, n) + n * (d - 1)
  {
    if n > 0 {
      ShiftLoses(h, d, n - 1);
      var s, t := Sum(One, h, d, n - 1), Sum(One, h, 1, n - 1);
      OneValue(h[n - 1], s, d);
      NextMultiple(n - 1, d - 1);
    }
  }

  lemma OneValue(x: nat, s: nat, d: nat)
    requires d > 0
    ensures d * (s + x / d) <= d * s + x <= d * (s + x / d) + (d - 1)
    ensures x / 1 == x
  {
    assert x == d * (x / d) + x % d;
    assert d * (s + x / d) == d * s + d * (x / d);
  }

  lemma SquareBound(i: nat)
    requires i < BINS
    ensures Square(i) <= MAX_POWER
  {
    var x := if i >= FULL_SCALE then i - FULL_SCALE else FULL_SCALE - i;
    TimesMonotone(x, FULL_SCALE, x);
    TimesMonotone(x, FULL_SCALE, FULL_SCALE);
  }

  lemma {:induction false} PowerBound(h: seq<nat>, d: nat, n: nat)
    requires n <= |h| && n <= BINS && d > 0
    ensures Sum(Square, h, d, n) <= MAX_POWER * Sum(One, h, d, n)
  {
    if n > 0 {
      PowerBound(h, d, n - 1);
      SquareBound(n - 1);
      TimesMonotone(Square(n - 1), MAX_POWER, h[n - 1] / d);
    }
  }

  lemma {:induction false} Log2Bounds(v: nat)
    requires v > 0
    ensures Pow2(Log2(v)) <= v < 2 * Pow2(Log2(v))
  {
    if v >= 2 {
      Log2Bounds(v / 2);
    }
  }

  // The divisor brings the number of samples below 2^34, and no lower than 2^33.
  lemma DivisorFits(n: nat)
    requires n < TWO_64
    ensures n < 0x4_0000_0000 * Divisor(n)
    ensures Divisor(n) == 1 || n >= 0x2_0000_0000 * Divisor(n)
  {
    var v := n / 0x2_0000_0000;
    if v > 0 {
      Log2Bounds(v);
    }
  }

  // The comment at lines 59-62: after the shift nothing overflows, and some
  // samples are left.
  lemma SumsFit(h: seq<nat>)
    requires |h| == BINS + 1 && 0 < Total(h) < TWO_64
    ensures 0 < ShiftedSamples(h) < 0x4_0000_0000
    ensures Power(h) <= MAX_POWER * ShiftedSamples(h) < TWO_64
  {
    hide Divisor, Sum;
    var total, d := Total(h), Divisor(Total(h));
    DivisorFits(total);
    ShiftLoses(h, d, BINS);
    ShiftedBounds(total, d, ShiftedSamples(h));
    PowerBound(h, d, BINS);
  }

  lemma ShiftedBounds(total: nat, d: nat, s: nat)
    requires 0 < total < 0x4_0000_0000 * d && (d == 1 || total >= 0x2_0000_0000 * d)
    requires d * s <= total <= d * s + BINS * (d - 1)
    ensures 0 < s < 0x4_0000_0000
  {
    if s >= 0x4_0000_0000 {
      TimesMonotone(0x4_0000_0000, s, d);
    }
  }

  // Neither guard ever fires, even when the rounding addition wraps.
  lemma MeanFits(h: seq<nat>)
    requires |h| == BINS + 1 && 0 < Total(h) < TWO_64
    ensures ShiftedSamples(h) > 0
    ensures Mean64(Power(h), ShiftedSamples(h)) <= MAX_POWER
    ensures Rounded(Power(h), ShiftedSamples(h)) <= MAX_POWER
  {
    SumsFit(h);
    hide Power, ShiftedSamples;
    RoundedBound(Power(h), ShiftedSamples(h));
  }

  lemma RoundedBound(power: nat, n: nat)
    requires n > 0 && power <= MAX_POWER * n
    ensures Rounded(power, n) <= MAX_POWER
    ensures Mean64(power, n) <= MAX_POWER
  {
    QuotientBound(power + n / 2, n);
    assert Plus64(power, n / 2) <= power + n / 2;
    QuotientBound(Plus64(power, n / 2), n);
  }

  lemma QuotientBound(x: nat, n: nat)
    requires n > 0 && x <= MAX_POWER * n + n / 2
    ensures x / n <= MAX_POWER
  {
  }

  // ----- What the result means

  // The rounded mean is the integer nearest to power / n.
  lemma RoundedIsNearest(power: nat, n: nat)
    requires n > 0
    ensures 2 * power - n <= 2 * (n * Rounded(power, n)) <= 2 * power + n
  {
    var x := power + n / 2;
    assert x == n * (x / n) + x % n;
  }

  // The machine's mean is the rounded mean exactly when the addition of line 70 does not wrap.
  lemma MeanIsRoundedIff(h: seq<nat>)
    requires |h| == BINS + 1 && 0 < Total(h) < TWO_64
    ensures var power, n := Power(h), ShiftedSamples(h);
            n > 0 && (Mean64(power, n) == Rounded(power, n) <==> power + n / 2 < TWO_64)
  {
    SumsFit(h);
    hide Power, ShiftedSamples;
    WrapIsFelt(Power(h), ShiftedSamples(h));
  }

  lemma WrapIsFelt(power: nat, n: nat)
    requires 0 < n < 0x4_0000_0000 && power < TWO_64
    ensures Mean64(power, n) == Rounded(power, n) <==> power + n / 2 < TWO_64
  {
    if power + n / 2 >= TWO_64 {
      assert Plus64(power, n / 2) == power + n / 2 - TWO_64 < n;
      DivisionIsUnique(Plus64(power, n / 2), 0, Plus64(power, n / 2), n);
      assert Rounded(power, n) > 0;
    }
  }

  // Up to 2^34 - 8 samples nothing is shifted away and nothing wraps.
  lemma FewSamplesAreExact(h: seq<nat>)
    requires |h| == BINS + 1 && 0 < Total(h) <= 0x4_0000_0000 - 8
    ensures Divisor(Total(h)) == 1 && ShiftedSamples(h) == Total(h)
    ensures Mean64(Power(h), ShiftedSamples(h)) == Rounded(Sum(Square, h, 1, BINS), Total(h))
  {
    assert Log2(Total(h) / 0x2_0000_0000) == 0;
    SumsFit(h);
    MeanIsRoundedIff(h);
  }

  // 2^34 - 1 samples at the loudest value: the mean is reported as 0, silence.
  lemma LoudestIsReportedSilent()
    ensures var h := [0x3_FFFF_FFFF] + seq(BINS, _ => 0);
            && Total(h) == 0x3_FFFF_FFFF == ShiftedSamples(h)
            && Rounded(Power(h), ShiftedSamples(h)) == MAX_POWER
            && Mean64(Power(h), ShiftedSamples(h)) == 0
  {
    var h := [0x3_FFFF_FFFF] + seq(BINS, _ => 0);
    FirstBinOnly(One, h, BINS);
    FirstBinOnly(Square, h, BINS);
    assert Log2(0x3_FFFF_FFFF / 0x2_0000_0000) == 0;
    assert Total(h) == 0x3_FFFF_FFFF && Divisor(Total(h)) == 1;
    assert Power(h) == MAX_POWER * 0x3_FFFF_FFFF;
    DivisionIsUnique(Power(h) + 0x1_FFFF_FFFF, MAX_POWER, 0x1_FFFF_FFFF, 0x3_FFFF_FFFF);
    var wrapped := Plus64(Power(h), 0x1_FFFF_FFFF);
    assert wrapped < 0x3_FFFF_FFFF;
    DivisionIsUnique(wrapped, 0, wrapped, 0x3_FFFF_FFFF);
  }

  lemma {:induction false} FirstBinOnly(weight: nat -> nat, h: seq<nat>, n: nat)
    requires 0 < n <= |h| && forall i :: 0 < i < n ==> h[i] == 0
    ensures Sum(weight, h, 1, n) == weight(0) * h[0]
  {
    if n == 1 {
      assert Sum(weight, h, 1, 0) == 0;
    } else {
      FirstBinOnly(weight, h, n - 1);
      assert Term(weight, h, 1, n - 1) == weight(n - 1) * 0;
    }
  }

  // ----- From samples to the mean

  // Sum of weight over the bins that print_stats reads.
  function SumRead(weight: nat -> nat, bins: seq<nat>): nat {
    if bins == [] then 0
    else
      var bin := bins[|bins| - 1];
      SumRead(weight, bins[..|bins| - 1]) + if bin < BINS then weight(bin) else 0
  }

  lemma {:induction false} SumOfUpdate(weight: nat -> nat, h: seq<nat>, n: nat, b: nat)
    requires n <= |h| && b < |h|
    ensures Sum(weight, h[b := h[b] + 1], 1, n) == Sum(weight, h, 1, n) + if b < n then weight(b) else 0
  {
    if n > 0 {
      SumOfUpdate(weight, h, n - 1, b);
      TermOfUpdate(weight, h, n - 1, b);
    }
  }

  lemma TermOfUpdate(weight: nat -> nat, h: seq<nat>, i: nat, b: nat)
    requires i < |h| && b < |h|
    ensures Term(weight, h[b := h[b] + 1], 1, i) == Term(weight, h, 1, i) + if b == i then weight(b) else 0
  {
    assert weight(i) * (h[i] + 1) == weight(i) * h[i] + weight(i);
  }

  // Counting samples adds their weights, except those at or above full scale.
  lemma {:induction false} CountingAddsWeights(weight: nat -> nat, h: seq<nat>, bins: seq<nat>)
    requires |h| == BINS + 1 && forall i :: 0 <= i < |bins| ==> bins[i] <= BINS
    ensures Sum(weight, Counted(h, bins), 1, BINS) == Sum(weight, h, 1, BINS) + SumRead(weight, bins)
  {
    hide Sum, Counted;
    if bins == [] {
      CountNone(h);
    } else {
      var init, last := bins[..|bins| - 1], bins[|bins| - 1];
      assert bins == init + [last];
      CountingAddsWeights(weight, h, init);
      CountOne(h, init, last);
      SumOfUpdate(weight, Counted(h, init), BINS, last);
    }
  }

  // The number of samples that count for the mean: those below full scale.
  lemma {:induction false} ReadSamples(pcm: seq<real>)
    ensures SumRead(One, Bins(pcm)) == |pcm| - |AtFullScale(pcm)|
  {
    if pcm != [] {
      var init, x := pcm[..|pcm| - 1], pcm[|pcm| - 1];
      ReadSamples(init);
      assert Bins(pcm)[..|pcm| - 1] == Bins(init);
    }
  }

  function AtFullScale(pcm: seq<real>): seq<real> {
    if pcm == [] then []
    else
      var x := pcm[|pcm| - 1];
      AtFullScale(pcm[..|pcm| - 1]) + if x >= 1.0 then [x] else []
  }

  // ----- The samples themselves

  // The power of the samples that count, in the scale of Square, with those
  // below -1 taken as -1.
  ghost function Energy(pcm: seq<real>): real {
    if pcm == [] then 0.0 else Energy(pcm[..|pcm| - 1]) + SampleEnergy(pcm[|pcm| - 1])
  }

  function Scaled(x: real): real {
    (if x < -1.0 then -1.0 else x) * 32768.0
  }

  function SampleEnergy(x: real): real {
    if x >= 1.0 then 0.0 else RealSquared(Scaled(x))
  }

  function RealSquared(x: real): real { x * x }

  // All samples are multiples of 1 / 0x8000, as decoded 16-bit audio is.
  ghost predicate SixteenBit(pcm: seq<real>) {
    forall i :: 0 <= i < |pcm| ==> Scaled(pcm[i]) == Scaled(pcm[i]).Floor as real
  }

  lemma RealTimes(a: real, b: real, c: real)
    requires a <= b && c >= 0.0
    ensures a * c <= b * c
  {
    assert b * c - a * c == (b - a) * c;
  }

  lemma SquareMonotone(x: real, y: real)
    requires 0.0 <= x <= y
    ensures RealSquared(x) <= RealSquared(y)
  {
    RealTimes(x, y, x);
    RealTimes(x, y, y);
  }

  lemma NextSquare(r: real)
    ensures RealSquared(r + 1.0) == RealSquared(r) + 2.0 * r + 1.0
  {
  }

  lemma SquareOfInt(a: nat)
    ensures Squared(a) as real == RealSquared(a as real)
  {
  }

  lemma SquareOfSize(x: real)
    ensures RealSquared(-x) == RealSquared(x)
  {
  }

  // a is the size of x, truncated.
  lemma SquareOfReal(a: nat, x: real)
    requires (a as real <= x < (a + 1) as real) || (a as real <= -x < (a + 1) as real)
    ensures Squared(a) as real <= RealSquared(x) <= Squared(a) as real + 2.0 * a as real + 1.0
    ensures x == x.Floor as real ==> Squared(a) as real == RealSquared(x)
  {
    hide RealSquared, Squared;
    var r, y := a as real, if a as real <= x then x else -x;
    SquareOfInt(a);
    SquareOfSize(x);
    SquareMonotone(r, y);
    SquareMonotone(y, r + 1.0);
    NextSquare(r);
    if x == x.Floor as real {
      WholeIsTruncated(a, x.Floor);
    }
  }

  lemma WholeIsTruncated(a: nat, x: int)
    requires (a as real <= x as real < (a + 1) as real) || (a as real <= -(x as real) < (a + 1) as real)
    ensures if a as real <= x as real then x as real == a as real else -(x as real) == a as real
  {
    assert a <= x < a + 1 || a <= -x < a + 1;
  }

  // Truncation loses less than two steps of full scale of a sample's power.
  lemma SampleEnergyOfBin(x: real)
    requires x < 1.0
    ensures Square(Bin(x)) as real <= SampleEnergy(x) <= Square(Bin(x)) as real + 65535.0
    ensures Scaled(x) == Scaled(x).Floor as real ==> Square(Bin(x)) as real == SampleEnergy(x)
  {
    hide Square, Bin, Scaled, RealSquared, Squared;
    if x <= -1.0 {
      LowestEnergy(x);
    } else {
      var bin := Bin(x);
      var a := if bin >= FULL_SCALE then bin - FULL_SCALE else FULL_SCALE - bin;
      SizeOfBin(x, a);
      SquareOfBin(bin, a);
      SquareOfReal(a, Scaled(x));
    }
  }

  lemma SquareOfBin(bin: nat, a: nat)
    requires a == if bin >= FULL_SCALE then bin - FULL_SCALE else FULL_SCALE - bin
    ensures Square(bin) == Squared(a)
  {
  }

  lemma LowestEnergy(x: real)
    requires x <= -1.0
    ensures Scaled(x) == -32768.0 && SampleEnergy(x) == 1073741824.0 && Square(Bin(x)) == 1073741824
  {
  }

  lemma SizeOfBin(x: real, a: nat)
    requires -1.0 < x < 1.0 && a == if Bin(x) >= FULL_SCALE then Bin(x) - FULL_SCALE else FULL_SCALE - Bin(x)
    ensures a <= 32767
    ensures (a as real <= Scaled(x) < (a + 1) as real) || (a as real <= -Scaled(x) < (a + 1) as real)
  {
  }

  lemma {:induction false} EnergyOfBins(pcm: seq<real>)
    ensures SumRead(Square, Bins(pcm)) as real <= Energy(pcm)
    ensures Energy(pcm) <= SumRead(Square, Bins(pcm)) as real + 65535.0 * SumRead(One, Bins(pcm)) as real
    ensures SixteenBit(pcm) ==> SumRead(Square, Bins(pcm)) as real == Energy(pcm)
  {
    hide Bin, Square, SampleEnergy, Scaled;
    if pcm != [] {
      var init, x := pcm[..|pcm| - 1], pcm[|pcm| - 1];
      EnergyOfBins(init);
      assert Bins(pcm)[..|pcm| - 1] == Bins(init);
      if x < 1.0 {
        SampleEnergyOfBin(x);
      } else {
        AtFullScaleCountsNothing(x);
      }
    }
  }

  lemma AtFullScaleCountsNothing(x: real)
    requires x >= 1.0
    ensures SampleEnergy(x) == 0.0
  {
  }

  // End to end, from an empty histogram: for the n samples below full scale
  // the result is their mean power, rounded, short by less than 2^16 of 2^30
  // for what truncation loses, and by nothing for 16-bit samples.
  lemma MeanOfSamples(pcm: seq<real>, zero: seq<nat>)
    requires |zero| == BINS + 1 && forall i :: 0 <= i <= BINS ==> zero[i] == 0
    requires 0 < |pcm| - |AtFullScale(pcm)| <= 0x4_0000_0000 - 8
    ensures var h, n := Counted(zero, Bins(pcm)), |pcm| - |AtFullScale(pcm)|;
            && Total(h) == ShiftedSamples(h) == n
            && var total := (n * Mean64(Power(h), n)) as real;
            && Energy(pcm) - 65535.5 * n as real <= total <= Energy(pcm) + 0.5 * n as real
            && (SixteenBit(pcm) ==> Energy(pcm) - 0.5 * n as real <= total)
  {
    hide Counted, Bins, Energy, SixteenBit, Mean64, Rounded;
    MeanOfBins(pcm, zero);
    ReadSamples(pcm);
    EnergyOfBins(pcm);
    RoundedIsNearest(SumRead(Square, Bins(pcm)), |pcm| - |AtFullScale(pcm)|);
  }

  lemma MeanOfBins(pcm: seq<real>, zero: seq<nat>)
    requires |zero| == BINS + 1 && forall i :: 0 <= i <= BINS ==> zero[i] == 0
    requires 0 < |pcm| - |AtFullScale(pcm)| <= 0x4_0000_0000 - 8
    ensures var h := Counted(zero, Bins(pcm));
            && Total(h) == ShiftedSamples(h) == |pcm| - |AtFullScale(pcm)|
            && Mean64(Power(h), ShiftedSamples(h)) == Rounded(SumRead(Square, Bins(pcm)), |pcm| - |AtFullScale(pcm)|)
  {
    hide Counted, Bins;
    FirstBinOnly(One, zero, BINS);
    FirstBinOnly(Square, zero, BINS);
    CountingAddsWeights(One, zero, Bins(pcm));
    CountingAddsWeights(Square, zero, Bins(pcm));
    ReadSamples(pcm);
    FewSamplesAreExact(Counted(zero, Bins(pcm)));
  }
}
