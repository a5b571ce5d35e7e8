/**
 `samples_filter`: an in-place bubble sort whose swaps go through a 16-bit variable, then the mean of the
 samples that remain when the smallest and the largest are dropped, in a 32-bit accumulator.
 */
module Samples {

  const TWO_16 := 0x1_0000
  const TWO_32 := 0x1_0000_0000

  type Word = x: int | 0 <= x < TWO_32

  predicate Sorted(s: seq<Word>) {
    forall i, j :: 0 <= i < j < |s| ==> s[i] <= s[j]
  }

  /** No sample that needs more than 16 bits stands before a smaller one. */
  predicate NoWideInversion(s: seq<Word>) {
    forall i, j :: 0 <= i < j < |s| && s[i] > s[j] ==> s[i] < TWO_16
  }

  /** The sum of the weights of the samples. */
  function Total(w: Word -> nat, s: seq<Word>): nat {
    if s == [] then 0 else Total(w, s[..|s| - 1]) + w(s[|s| - 1])
  }

  function Value(): Word -> nat { x => x }

  function Sum(s: seq<Word>): nat {
    Total(Value(), s)
  }

  function Outside(lo: nat, hi: nat): Word -> nat { x => if lo <= x <= hi then 0 else 1 }

  /** How many samples lie outside an interval. */
  function Outliers(s: seq<Word>, lo: nat, hi: nat): nat {
    Total(Outside(lo, hi), s)
  }

  // ---- Totals.

  lemma {:induction false} TotalAppend(w: Word -> nat, s: seq<Word>, t: seq<Word>)
    ensures Total(w, s + t) == Total(w, s) + Total(w, t)
  {
    if t == [] {
      assert s + t == s;
    } else {
      var n := |t| - 1;
      assert (s + t)[..|s| + n] == s + t[..n];
      TotalAppend(w, s, t[..n]);
    }
  }

  lemma TotalOne(w: Word -> nat, x: Word)
    ensures Total(w, [x]) == w(x)
  {
    assert [x][..0] == [];
  }

  lemma TotalUpdate(w: Word -> nat, s: seq<Word>, k: nat, v: Word)
    requires k < |s|
    ensures Total(w, s[k := v]) + w(s[k]) == Total(w, s) + w(v)
  {
    hide Total;
    assert s == s[..k] + ([s[k]] + s[k + 1..]) && s[k := v] == s[..k] + ([v] + s[k + 1..]);
    TotalAppend(w, s[..k], [s[k]] + s[k + 1..]);
    TotalAppend(w, s[..k], [v] + s[k + 1..]);
    TotalAppend(w, [s[k]], s[k + 1..]);
    TotalAppend(w, [v], s[k + 1..]);
    TotalOne(w, s[k]);
    TotalOne(w, v);
  }

  lemma TakeOut(s: seq<Word>, k: nat)
    requires k < |s|
    ensures multiset(s) == multiset(s[..k] + s[k + 1..]) + multiset{s[k]}
  {
    assert s == s[..k] + [s[k]] + s[k + 1..];
  }

  lemma TotalTakeOut(w: Word -> nat, s: seq<Word>, k: nat)
    requires k < |s|
    ensures Total(w, s) == Total(w, s[..k] + s[k + 1..]) + w(s[k])
  {
    hide Total;
    assert s == s[..k] + ([s[k]] + s[k + 1..]);
    TotalAppend(w, s[..k], [s[k]] + s[k + 1..]);
    TotalAppend(w, [s[k]], s[k + 1..]);
    TotalAppend(w, s[..k], s[k + 1..]);
    TotalOne(w, s[k]);
  }

  /** Two arrangements of the same samples, without one of them. */
  lemma SameRest(s: seq<Word>, t: seq<Word>) returns (k: nat)
    requires s != [] && multiset(s) == multiset(t)
    ensures k < |t| && t[k] == s[0] && multiset(s[..0] + s[1..]) == multiset(t[..k] + t[k + 1..])
  {
    assert s[0] in multiset(t);
    k :| 0 <= k < |t| && t[k] == s[0];
    TakeOut(s, 0);
    TakeOut(t, k);
    SameWithout(multiset(s[..0] + s[1..]), multiset(t[..k] + t[k + 1..]), s[0]);
  }

  lemma SameWithout(a: multiset<Word>, b: multiset<Word>, x: Word)
    requires a + multiset{x} == b + multiset{x}
    ensures a == b
  {
    assert a == a + multiset{x} - multiset{x} && b == b + multiset{x} - multiset{x};
  }

  /** The order of the samples does not matter to a total. */
  lemma {:induction false} TotalOfPermutation(w: Word -> nat, s: seq<Word>, t: seq<Word>)
    requires multiset(s) == multiset(t)
    ensures Total(w, s) == Total(w, t)
    decreases |s|
  {
    hide Total;
    if s == [] {
      assert |t| == |multiset(t)| == 0;
    } else {
      var k := SameRest(s, t);
      TotalTakeOut(w, s, 0);
      TotalTakeOut(w, t, k);
      TotalOfPermutation(w, s[..0] + s[1..], t[..k] + t[k + 1..]);
    }
  }

  // ---- One swap.

  function Swapped(s: seq<Word>, j: nat): (t: seq<Word>)
    requires j + 1 < |s|
  {
    s[j := s[j + 1]][j + 1 := s[j] % TWO_16]
  }

  /** One comparison of the sort. */
  function Compared(s: seq<Word>, j: nat): (t: seq<Word>)
    requires j + 1 < |s|
    ensures |t| == |s|
  {
    if s[j] > s[j + 1] then Swapped(s, j) else s
  }

  /** The first `j` comparisons of a pass. */
  function Pass(s: seq<Word>, j: nat): (t: seq<Word>)
    requires j < |s|
    ensures |t| == |s|
  {
    if j == 0 then s else Compared(Pass(s, j - 1), j - 1)
  }

  /** The first `i` passes of the sort, each one comparison shorter. */
  function Passes(s: seq<Word>, i: nat): (t: seq<Word>)
    requires i < |s|
    ensures |t| == |s|
  {
    if i == 0 then s else Pass(Passes(s, i - 1), |s| - i)
  }

  /** What the sort leaves of the samples. */
  function BubbleSorted(s: seq<Word>): (t: seq<Word>)
    requires s != []
    ensures |t| == |s|
  {
    Passes(s, |s| - 1)
  }

  /** A narrow sample is swapped; a wide one is cut, and what was lost does not come back. */
  lemma SwapStep(s: seq<Word>, j: nat)
    requires j + 1 < |s| && s[j] > s[j + 1]
    ensures s[j] < TWO_16 ==>
      multiset(Swapped(s, j)) == multiset(s) && (NoWideInversion(Swapped(s, j)) <==> NoWideInversion(s))
    ensures s[j] >= TWO_16 ==> !NoWideInversion(s)
    ensures Sum(Swapped(s, j)) <= Sum(s) && (s[j] >= TWO_16 ==> Sum(Swapped(s, j)) < Sum(s))
  {
    var w := Value();
    var t := s[j := s[j + 1]];
    TotalUpdate(w, s, j, s[j + 1]);
    TotalUpdate(w, t, j + 1, s[j] % TWO_16);
    hide Total;
    if s[j] < TWO_16 {
      InversionsKept(s, Swapped(s, j), j);
    }
  }

  lemma InversionsKept(s: seq<Word>, t: seq<Word>, j: nat)
    requires j + 1 < |s| == |t| && TWO_16 > s[j] > s[j + 1]
    requires t == s[j := s[j + 1]][j + 1 := s[j]]
    ensures NoWideInversion(t) <==> NoWideInversion(s)
  {
    forall a, b | 0 <= a < b < |s|
      ensures (t[a] > t[b] && t[a] >= TWO_16 ==> !NoWideInversion(s))
      ensures (s[a] > s[b] && s[a] >= TWO_16 ==> !NoWideInversion(t))
    {
      var c := if a == j then j + 1 else if a == j + 1 then j else a;
      var d := if b == j then j + 1 else if b == j + 1 then j else b;
      assert t[c] == s[a] && t[d] == s[b] && s[c] == t[a] && s[d] == t[b];
    }
  }

  // ---- The sort.

  /** From `n - i` on the samples are in their final places. */
  ghost predicate Settled(s: seq<Word>, i: nat) {
    forall a, b :: 0 <= a < b < |s| && |s| - i <= b ==> s[a] <= s[b]
  }

  /** Position `j` holds the largest sample up to it. */
  ghost predicate LargestAt(s: seq<Word>, j: nat) {
    j < |s| && forall a :: 0 <= a < j ==> s[a] <= s[j]
  }

  lemma SettledSwap(s: seq<Word>, i: nat, j: nat)
    requires i + j + 1 < |s| && Settled(s, i) && LargestAt(s, j)
    requires s[j] < TWO_16
    ensures s[j] <= s[j + 1] ==> LargestAt(s, j + 1)
    ensures s[j] > s[j + 1] ==> Settled(Swapped(s, j), i) && LargestAt(Swapped(s, j), j + 1)
  {
  }

  lemma SettledPass(s: seq<Word>, i: nat)
    requires i < |s| && Settled(s, i) && LargestAt(s, |s| - i - 1)
    ensures Settled(s, i + 1)
  {
  }

  lemma SettledEnds(s: seq<Word>)
    requires |s| > 0 && Settled(s, |s| - 1)
    ensures Sorted(s) && NoWideInversion(s)
  {
  }

  /**
   The sort, as seen from the start: either no wide sample was cut and this is a bubble sort as usual, or
   the sum has dropped.
   */
  ghost predicate Progress(first: seq<Word>, s: seq<Word>, cut: bool) {
    && |s| == |first|
    && if cut then !NoWideInversion(first) && Sum(s) < Sum(first)
       else multiset(s) == multiset(first) && (NoWideInversion(s) <==> NoWideInversion(first))
  }

  lemma ProgressSwap(first: seq<Word>, s: seq<Word>, cut: bool, j: nat)
    requires Progress(first, s, cut) && j + 1 < |s| && s[j] > s[j + 1]
    ensures Progress(first, Swapped(s, j), cut || s[j] >= TWO_16)
  {
    SwapStep(s, j);
    if !cut {
      TotalOfPermutation(Value(), s, first);
    }
  }

  lemma Beginning(first: seq<Word>)
    ensures Progress(first, first, false) && Settled(first, 0)
  {
  }

  lemma FirstIsLargest(s: seq<Word>)
    requires s != []
    ensures LargestAt(s, 0)
  {
  }

  lemma LargestMoves(s: seq<Word>, j: nat)
    requires j + 1 < |s| && LargestAt(s, j) && s[j] <= s[j + 1]
    ensures LargestAt(s, j + 1)
  {
  }

  lemma SortOutcome(first: seq<Word>, s: seq<Word>, cut: bool)
    requires Progress(first, s, cut) && (cut || (Sorted(s) && NoWideInversion(s)))
    ensures NoWideInversion(first) <==> multiset(s) == multiset(first)
    ensures NoWideInversion(first) ==> Sorted(s)
  {
    hide Sorted, NoWideInversion, Sum;
    if multiset(s) == multiset(first) {
      TotalOfPermutation(Value(), s, first);
      assert Sum(s) == Sum(first) by { SumsAgree(s, first); }
    }
  }

  lemma SumsAgree(s: seq<Word>, t: seq<Word>)
    requires Total(Value(), s) == Total(Value(), t)
    ensures Sum(s) == Sum(t)
  {
  }

  /** Before pass `i`. */
  ghost predicate BetweenPasses(first: seq<Word>, s: seq<Word>, cut: bool, i: nat) {
    i < |first| && Progress(first, s, cut) && s == Passes(first, i) && (cut || Settled(s, i))
  }

  /** In pass `i`, before comparison `j`. */
  ghost predicate InPass(first: seq<Word>, s: seq<Word>, cut: bool, i: nat, j: nat) {
    && i + j < |first| && Progress(first, s, cut) && s == Pass(Passes(first, i), j)
    && (cut || (Settled(s, i) && LargestAt(s, j)))
  }

  lemma SortBegins(first: seq<Word>)
    requires first != []
    ensures BetweenPasses(first, first, false, 0)
  {
    hide Progress, Settled;
    Beginning(first);
  }

  lemma PassBegins(first: seq<Word>, s: seq<Word>, cut: bool, i: nat)
    requires BetweenPasses(first, s, cut, i)
    ensures InPass(first, s, cut, i, 0)
  {
    hide Progress, Settled, LargestAt, Passes;
    FirstIsLargest(s);
  }

  lemma PassGoesOn(first: seq<Word>, s: seq<Word>, cut: bool, i: nat, j: nat)
    requires InPass(first, s, cut, i, j) && i + j + 1 < |first| == |s|
    ensures if s[j] > s[j + 1] then InPass(first, Swapped(s, j), cut || s[j] >= TWO_16, i, j + 1)
      else InPass(first, s, cut, i, j + 1)
  {
    hide Progress, Settled, LargestAt, Passes, Swapped, Pass;
    ComparedStep(first, s, cut, i, j);
    NextComparison(Passes(first, i), j);
  }

  lemma PassEnds(first: seq<Word>, s: seq<Word>, cut: bool, i: nat)
    requires i + 1 < |first| && InPass(first, s, cut, i, |first| - i - 1)
    ensures BetweenPasses(first, s, cut, i + 1)
  {
    hide Progress, Settled, LargestAt, Passes, Pass;
    NextPass(first, i);
    if !cut {
      SettledPass(s, i);
    }
  }

  lemma SortEnds(first: seq<Word>, s: seq<Word>, cut: bool)
    requires first != [] && BetweenPasses(first, s, cut, |first| - 1)
    ensures NoWideInversion(first) <==> multiset(s) == multiset(first)
    ensures NoWideInversion(first) ==> Sorted(s)
    ensures s == BubbleSorted(first)
  {
    hide Progress, Settled, Passes, Sorted, NoWideInversion;
    if !cut {
      SettledEnds(s);
    }
    SortOutcome(first, s, cut);
  }

  lemma NextComparison(s: seq<Word>, j: nat)
    requires j + 1 < |s|
    ensures var t := Pass(s, j); Pass(s, j + 1) == if t[j] > t[j + 1] then Swapped(t, j) else t
  {
    hide Swapped;
  }

  lemma NextPass(s: seq<Word>, i: nat)
    requires i + 1 < |s|
    ensures Passes(s, i + 1) == Pass(Passes(s, i), |s| - i - 1)
  {
    hide Pass;
  }

  /** One comparison, with or without a swap. */
  lemma ComparedStep(first: seq<Word>, s: seq<Word>, cut: bool, i: nat, j: nat)
    requires i + j + 1 < |s| && Progress(first, s, cut) && (cut || (Settled(s, i) && LargestAt(s, j)))
    ensures s[j] <= s[j + 1] && !cut ==> LargestAt(s, j + 1)
    ensures s[j] > s[j + 1] ==>
      (var now := cut || s[j] >= TWO_16;
       Progress(first, Swapped(s, j), now) && (now || (Settled(Swapped(s, j), i) && LargestAt(Swapped(s, j), j + 1))))
  {
    hide Progress, Settled, LargestAt, Swapped;
    if s[j] > s[j + 1] {
      ProgressSwap(first, s, cut, j);
      if !cut && s[j] < TWO_16 {
        SettledSwap(s, i, j);
      }
    } else if !cut {
      LargestMoves(s, j);
    }
  }

  /** The swap, through a variable of 16 bits. */
  method Swap(samples: array<Word>, j: nat)
    requires j + 1 < samples.Length
    modifies samples
    ensures samples[..] == Swapped(old(samples[..]), j)
  {
    var sw := samples[j] % TWO_16;
    samples[j] := samples[j + 1];
    samples[j + 1] := sw;
  }

  /** The sort keeps the samples exactly when no wide one has to move, and then it sorts them. */
  method SortSamples(samples: array<Word>)
    requires samples.Length > 0
    modifies samples
    ensures NoWideInversion(old(samples[..])) <==> multiset(samples[..]) == multiset(old(samples[..]))
    ensures NoWideInversion(old(samples[..])) ==> Sorted(samples[..])
    ensures samples[..] == BubbleSorted(old(samples[..]))
  {
    var total := samples.Length;
    ghost var first := samples[..];
    ghost var cut := false;
    hide *;
    SortBegins(first);
    for i := 0 to total - 1
      invariant BetweenPasses(first, samples[..], cut, i)
    {
      PassBegins(first, samples[..], cut, i);
      for j := 0 to total - i - 1
        invariant InPass(first, samples[..], cut, i, j)
      {
        ghost var s := samples[..];
        PassGoesOn(first, s, cut, i, j);
        if samples[j] > samples[j + 1] {
          cut := cut || samples[j] >= TWO_16;
          Swap(samples, j);
        }
      }
      PassEnds(first, samples[..], cut, i);
    }
    SortEnds(first, samples[..], cut);
  }

  // ---- The mean.

  function Low32(x: nat): nat { x % TWO_32 }

  /** The mean of the middle samples, with the accumulator's wrap-around. */
  function TrimmedMean(s: seq<Word>, drop: nat): nat
    requires 2 * drop < |s|
  {
    Low32(Sum(s[drop..|s| - drop])) / (|s| - 2 * drop)
  }

  /** The mean is the quotient, rounded down, of the sum of the middle modulo 2^32 and the number of samples left. */
  lemma MeanIsQuotient(s: seq<Word>, drop: nat)
    requires 2 * drop < |s|
    ensures var m, r := |s| - 2 * drop, TrimmedMean(s, drop);
      m * r <= Sum(s[drop..|s| - drop]) % 0x1_0000_0000 < m * r + m
  {
    Quotient(Sum(s[drop..|s| - drop]) % TWO_32, |s| - 2 * drop);
  }

  lemma Quotient(sum: nat, m: nat)
    requires 0 < m
    ensures m * (sum / m) <= sum < m * (sum / m) + m
  {
    assert sum == m * (sum / m) + sum % m;
  }

  /** `samples_filter`, with at least one sample left in the middle. */
  method SamplesFilter(samples: array<Word>, filterCount: nat) returns (all: nat)
    requires 2 * filterCount < samples.Length
    modifies samples
    ensures NoWideInversion(old(samples[..])) <==> multiset(samples[..]) == multiset(old(samples[..]))
    ensures NoWideInversion(old(samples[..])) ==> Sorted(samples[..])
    ensures samples[..] == BubbleSorted(old(samples[..])) && all == TrimmedMean(samples[..], filterCount)
    ensures var m := samples.Length - 2 * filterCount;
      m * all <= Sum(samples[..][filterCount..samples.Length - filterCount]) % 0x1_0000_0000 < m * all + m
  {
    hide NoWideInversion, Sorted, BubbleSorted, Sum, Low32;
    var total := samples.Length;
    SortSamples(samples);
    all := SumMiddle(samples, filterCount);
    all := all / (total - 2 * filterCount);
    MeanIsQuotient(samples[..], filterCount);
  }

  /** The accumulation loop. */
  method SumMiddle(samples: array<Word>, filterCount: nat) returns (all: nat)
    requires 2 * filterCount < samples.Length
    ensures all == Low32(Sum(samples[..][filterCount..samples.Length - filterCount]))
  {
    hide *;
    var total := samples.Length;
    ghost var s := samples[..];
    all := 0;
    SumEmpty();
    AddWraps(0, 0);
    assert s[filterCount..filterCount] == [];
    for i := filterCount to total - filterCount
      invariant all == Low32(Sum(s[filterCount..i]))
    {
      SumNext(s, filterCount, i);
      AddWraps(Sum(s[filterCount..i]), samples[i]);
      all := Low32(all + samples[i]);
    }
  }

  lemma AddWraps(a: nat, b: nat)
    ensures Low32(Low32(a) + b) == Low32(a + b) && Low32(0) == 0
  {
  }

  lemma SumEmpty()
    ensures Sum([]) == 0
  {
  }

  lemma SumNext(s: seq<Word>, from: nat, i: nat)
    requires from <= i < |s|
    ensures Sum(s[from..i + 1]) == Sum(s[from..i]) + s[i]
  {
    assert s[from..i + 1] == s[from..i] + [s[i]];
    TotalAppend(Value(), s[from..i], [s[i]]);
    TotalOne(Value(), s[i]);
  }

  /** A wide sample before a smaller one is lost: of 65536 and 0 only zeros are left. */
  lemma WideSampleIsLost()
    ensures !NoWideInversion([TWO_16, 0]) && BubbleSorted([TWO_16, 0]) == [0, 0]
    ensures multiset(BubbleSorted([TWO_16, 0])) != multiset([TWO_16, 0])
    ensures TrimmedMean(BubbleSorted([TWO_16, 0]), 0) == 0 && TrimmedMean([0, TWO_16], 0) == TWO_16 / 2
  {
    WideSwap();
    TwoSum(0, 0);
    TwoSum(0, TWO_16);
    MeanOfTwo([0, 0]);
    MeanOfTwo([0, TWO_16]);
    hide Pass, Passes, BubbleSorted, Swapped, TrimmedMean;
  }

  lemma WideSwap()
    ensures !NoWideInversion([TWO_16, 0]) && BubbleSorted([TWO_16, 0]) == [0, 0]
    ensures multiset([0, 0]) != multiset([TWO_16, 0])
  {
    var s: seq<Word>, z: seq<Word> := [TWO_16, 0], [0, 0];
    assert s[0] == TWO_16 && s[1] == 0;
    assert Swapped(s, 0) == z;
    hide Swapped;
    NextComparison(s, 0);
    NextPass(s, 0);
    assert z[0] == 0 && z[1] == 0;
    assert TWO_16 in multiset(s) && TWO_16 !in multiset(z);
  }

  lemma MeanOfTwo(s: seq<Word>)
    requires |s| == 2
    ensures TrimmedMean(s, 0) == Low32(Sum(s[0..2])) / 2
  {
    hide Sum, Low32;
  }

  lemma TwoSum(a: Word, b: Word)
    ensures Sum([a, b][0..2]) == a + b
  {
    var s: seq<Word> := [a, b];
    assert s[0..2] == s && s[..1] == [a] && s[..1][..0] == [];
    assert Total(Value(), [a]) == a by { TotalOne(Value(), a); }
  }

  // ---- What the result means.

  /** The 32-bit accumulator gives the true mean exactly when the sum fits it. */
  lemma MeanIsTrue(sum: nat, m: nat)
    requires 0 < m < TWO_32
    ensures Low32(sum) / m == sum / m <==> sum < TWO_32
  {
    if sum >= TWO_32 {
      var low := sum % TWO_32;
      assert low + TWO_32 <= sum;
      QuotientGrows(low, sum, m);
    }
  }

  lemma QuotientGrows(a: nat, b: nat, m: nat)
    requires 0 < m && a + m <= b
    ensures a / m < b / m
  {
    assert a == m * (a / m) + a % m && b == m * (b / m) + b % m;
    Multiples(m, b / m, a / m);
  }

  lemma Multiples(m: nat, a: nat, b: nat)
    ensures a <= b ==> m * a <= m * b
  {
  }

  lemma {:induction false} AllOutside(s: seq<Word>, lo: nat, hi: nat)
    requires forall i | 0 <= i < |s| :: !(lo <= s[i] <= hi)
    ensures Outliers(s, lo, hi) == |s|
  {
    if s == [] {
    } else {
      AllOutside(s[..|s| - 1], lo, hi);
    }
  }

  lemma {:induction false} SumBetween(s: seq<Word>, lo: nat, hi: nat)
    requires forall i | 0 <= i < |s| :: lo <= s[i] <= hi
    ensures lo * |s| <= Sum(s) <= hi * |s|
  {
    if s == [] {
    } else {
      var n := |s| - 1;
      SumBetween(s[..n], lo, hi);
      assert lo * |s| == lo * n + lo && hi * |s| == hi * n + hi;
    }
  }

  /** With few enough outliers the middle of the sorted samples lies in the interval. */
  lemma MiddleIsInside(s: seq<Word>, drop: nat, lo: nat, hi: nat, i: nat)
    requires Sorted(s) && Outliers(s, lo, hi) <= drop <= i < |s| - drop
    ensures lo <= s[i] <= hi
  {
    hide Outliers;
    if s[i] < lo {
      AllOutside(s[..i + 1], lo, hi);
      OutliersOfPart(s, i + 1, lo, hi);
    } else if s[i] > hi {
      AllOutside(s[i..], lo, hi);
      OutliersOfPart(s, i, lo, hi);
    }
  }

  lemma OutliersOfPart(s: seq<Word>, k: nat, lo: nat, hi: nat)
    requires k <= |s|
    ensures Outliers(s[..k], lo, hi) <= Outliers(s, lo, hi) && Outliers(s[k..], lo, hi) <= Outliers(s, lo, hi)
  {
    hide Total;
    assert s[..k] + s[k..] == s;
    TotalAppend(Outside(lo, hi), s[..k], s[k..]);
  }

  /**
   If all but at most `drop` of the samples lie in an interval, the trimmed mean lies in it, however wild
   the others are.
   */
  lemma TrimmedMeanIsRobust(first: seq<Word>, s: seq<Word>, drop: nat, lo: nat, hi: nat)
    requires Sorted(s) && multiset(s) == multiset(first) && 2 * drop < |s|
    requires Outliers(first, lo, hi) <= drop && Sum(s[drop..|s| - drop]) < TWO_32
    ensures lo <= TrimmedMean(s, drop) <= hi
  {
    TotalOfPermutation(Outside(lo, hi), s, first);
    assert Outliers(s, lo, hi) <= drop;
    hide Outliers, Sorted, Sum, TrimmedMean;
    SmallMean(s, drop);
    var middle := s[drop..|s| - drop];
    var m := |s| - 2 * drop;
    forall i | 0 <= i < |middle| ensures lo <= middle[i] <= hi {
      MiddleIsInside(s, drop, lo, hi, drop + i);
    }
    SumBetween(middle, lo, hi);
    MeanBetween(Sum(middle), m, lo, hi);
  }

  lemma SmallMean(s: seq<Word>, drop: nat)
    requires 2 * drop < |s| && Sum(s[drop..|s| - drop]) < TWO_32
    ensures TrimmedMean(s, drop) == Sum(s[drop..|s| - drop]) / (|s| - 2 * drop)
  {
    hide Sum;
  }

  lemma MeanBetween(sum: nat, m: nat, lo: nat, hi: nat)
    requires 0 < m && lo * m <= sum <= hi * m
    ensures lo <= sum / m <= hi
  {
    assert sum == m * (sum / m) + sum % m;
    Multiples(m, sum / m + 1, lo);
    Multiples(m, hi + 1, sum / m);
  }

  /** Samples of 16 bits, up to 65536 of them, are in no danger: the filter sorts them, and is robust. */
  lemma NarrowSamples(first: seq<Word>, s: seq<Word>, drop: nat, lo: nat, hi: nat)
    requires (forall x | x in first :: x < TWO_16) && |first| <= TWO_16
    ensures NoWideInversion(first)
    ensures Sorted(s) && multiset(s) == multiset(first) && 2 * drop < |s| && Outliers(first, lo, hi) <= drop ==>
      lo <= TrimmedMean(s, drop) <= hi
  {
    assert forall i | 0 <= i < |first| :: first[i] in first;
    if multiset(s) == multiset(first) && 2 * drop < |s| {
      var middle := s[drop..|s| - drop];
      assert |s| == |multiset(s)| == |multiset(first)| == |first|;
      forall i | 0 <= i < |middle| ensures 0 <= middle[i] <= TWO_16 - 1 {
        assert middle[i] in multiset(s);
      }
      SumBetween(middle, 0, TWO_16 - 1);
      assert (TWO_16 - 1) * |middle| <= (TWO_16 - 1) * TWO_16;
      if Sorted(s) && Outliers(first, lo, hi) <= drop {
        TrimmedMeanIsRobust(first, s, drop, lo, hi);
      }
    }
  }
}
