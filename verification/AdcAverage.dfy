/** The sampling part of `adc_sample_and_get_result`: eight readings are sorted as they
    arrive, and the middle four are averaged. */
module AdcAverage {

  const ADC_SAMPLE_NUM := 8

  /** A raw conversion: bit 13 set means a negative voltage, read as zero; otherwise the low
      13 bits count. */
  function Reading(raw: nat): (r: nat)
    ensures r < 0x2000
  {
    if raw / 0x2000 % 2 == 1 then 0 else raw % 0x2000
  }

  predicate Sorted(s: seq<nat>) {
    forall i, j :: 0 <= i < j < |s| ==> s[i] <= s[j]
  }

  /** `x` inserted into a sorted sequence, after its equals. */
  function Insert(s: seq<nat>, x: nat): seq<nat> {
    if |s| > 0 && s[|s| - 1] > x then Insert(s[..|s| - 1], x) + [s[|s| - 1]] else s + [x]
  }

  /** Insertion sort of the readings, in the order they arrive. */
  function Sort(s: seq<nat>): seq<nat> {
    if |s| == 0 then [] else Insert(Sort(s[..|s| - 1]), s[|s| - 1])
  }

  /** `Insert` puts `x` after the elements that are not larger. */
  lemma {:induction false} InsertAt(s: seq<nat>, x: nat, p: nat)
    requires p <= |s| && (p == 0 || s[p - 1] <= x)
    requires forall k :: p <= k < |s| ==> s[k] > x
    ensures Insert(s, x) == s[..p] + [x] + s[p..]
  {
    if p < |s| {
      InsertAt(s[..|s| - 1], x, p);
      assert s[p..] == s[..|s| - 1][p..] + [s[|s| - 1]];
      assert s[..|s| - 1][..p] == s[..p];
    }
  }

  /** Where that is. */
  function Place(s: seq<nat>, x: nat): (p: nat)
    ensures p <= |s| && (p == 0 || s[p - 1] <= x)
    ensures forall k :: p <= k < |s| ==> s[k] > x
  {
    if |s| > 0 && s[|s| - 1] > x then Place(s[..|s| - 1], x) else |s|
  }

  lemma StaysSorted(s: seq<nat>, x: nat, p: nat)
    requires Sorted(s) && p <= |s| && (p == 0 || s[p - 1] <= x)
    requires forall k :: p <= k < |s| ==> s[k] > x
    ensures Sorted(s[..p] + [x] + s[p..])
  {
    var t := s[..p] + [x] + s[p..];
    forall i, j | 0 <= i < j < |t|
      ensures t[i] <= t[j]
    {
      assert i < p ==> t[i] == s[i] <= s[p - 1];
    }
  }

  lemma InsertSorts(s: seq<nat>, x: nat)
    requires Sorted(s)
    ensures Sorted(Insert(s, x)) && multiset(Insert(s, x)) == multiset(s) + multiset{x}
  {
    hide Insert, Sorted;
    var p := Place(s, x);
    InsertAt(s, x, p);
    StaysSorted(s, x, p);
    assert s == s[..p] + s[p..];
  }

  /** A sorted sequence is left alone. */
  lemma {:induction false} SortOfSorted(s: seq<nat>)
    requires Sorted(s)
    ensures Sort(s) == s
  {
    if |s| > 0 {
      SortOfSorted(s[..|s| - 1]);
    }
  }

  lemma {:induction false} SortSorts(s: seq<nat>)
    ensures Sorted(Sort(s)) && multiset(Sort(s)) == multiset(s) && |Sort(s)| == |s|
  {
    if |s| > 0 {
      SortSorts(s[..|s| - 1]);
      InsertSorts(Sort(s[..|s| - 1]), s[|s| - 1]);
      assert s == s[..|s| - 1] + [s[|s| - 1]];
    }
    assert |multiset(Sort(s))| == |multiset(s)|;
  }

  /** Element `i` has moved down to place `p`, and those from `p` on have moved up by one. */
  lemma Inserted(before: seq<nat>, after: seq<nat>, i: nat, p: nat)
    requires p <= i < |before| == |after|
    requires forall k :: 0 <= k < p ==> after[k] == before[k]
    requires forall k :: p <= k < i ==> after[k + 1] == before[k]
    requires forall k :: i < k < |before| ==> after[k] == before[k]
    requires after[p] == before[i] && (p == 0 || before[p - 1] <= before[i])
    requires forall k :: p <= k < i ==> before[k] > before[i]
    ensures after[..i + 1] == Insert(before[..i], before[i]) && after[i + 1..] == before[i + 1..]
  {
    hide Insert;
    InsertAt(before[..i], before[i], p);
    assert after[..i + 1] == before[..i][..p] + [before[i]] + before[..i][p..];
  }

  /** Moves the last reading to its place among the sorted ones before it. */
  method InsertLast(sample: array<nat>, i: nat)
    requires i < sample.Length
    modifies sample
    ensures sample[..i + 1] == Insert(old(sample[..i]), old(sample[i]))
    ensures sample[i + 1..] == old(sample[i + 1..])
  {
    hide Insert;
    if i > 0 && sample[i] < sample[i - 1] {
      ghost var before := sample[..];
      var temp := sample[i];
      sample[i] := sample[i - 1];
      var j := i - 1;
      while j >= 0 && sample[j] > temp
        invariant -1 <= j <= i - 1
        invariant forall k :: 0 <= k <= j ==> sample[k] == before[k]
        invariant forall k :: j + 1 <= k < i ==> sample[k + 1] == before[k] > temp
        invariant forall k :: i < k < sample.Length ==> sample[k] == before[k]
      {
        sample[j + 1] := sample[j];
        j := j - 1;
      }
      sample[j + 1] := temp;
      Inserted(before, sample[..], i, j + 1);
    } else {
      Inserted(sample[..], sample[..], i, i);
    }
  }

  function Average(s: seq<nat>): nat
    requires |s| == ADC_SAMPLE_NUM
  {
    (s[2] + s[3] + s[4] + s[5]) / 4
  }

  function Readings(raw: seq<nat>): (rs: seq<nat>)
    ensures |rs| == |raw|
  {
    seq(|raw|, i requires 0 <= i < |raw| => Reading(raw[i]))
  }

  /** The sampling loop: after every reading the ones so far are sorted. */
  method SampleAndAverage(raw: seq<nat>, sample: array<nat>) returns (average: nat)
    requires |raw| == ADC_SAMPLE_NUM == sample.Length
    modifies sample
    ensures sample[..] == Sort(Readings(raw)) && average == Average(Sort(Readings(raw)))
    ensures forall lo, hi, odd | MostWithin(raw, lo, hi, odd) :: NotNegative(lo) <= average <= NotNegative(hi)
  {
    hide Insert, Average, MostWithin;
    var i := 0;
    while i < ADC_SAMPLE_NUM
      invariant 0 <= i <= ADC_SAMPLE_NUM
      invariant sample[..i] == Sort(Readings(raw)[..i])
    {
      sample[i] := Reading(raw[i]);
      assert Readings(raw)[..i + 1][..i] == Readings(raw)[..i];
      InsertLast(sample, i);
      i := i + 1;
    }
    assert Readings(raw)[..i] == Readings(raw) && sample[..i] == sample[..];
    SortSorts(Readings(raw));
    average := AverageOf(sample);
    forall lo, hi, odd | MostWithin(raw, lo, hi, odd)
      ensures NotNegative(lo) <= average <= NotNegative(hi)
    {
      RobustVoltage(raw, lo, hi, odd);
    }
  }

  method AverageOf(sample: array<nat>) returns (average: nat)
    requires sample.Length == ADC_SAMPLE_NUM
    ensures average == Average(sample[..])
  {
    average := (sample[2] + sample[3] + sample[4] + sample[5]) / 4;
  }

  /** Three elements of `good + bad`, none of them in `good`, are three of `bad`. */
  lemma AllFromBad(three: multiset<nat>, good: multiset<nat>, bad: multiset<nat>)
    requires three <= good + bad && forall x :: x in three ==> x !in good
    ensures |three| <= |bad|
  {
    forall x | x in three
      ensures three[x] <= bad[x]
    {
      assert good[x] == 0;
    }
    assert three <= bad;
    assert bad == three + (bad - three);
  }

  /** A part of the readings that are all not `good` is no longer than `bad`. */
  lemma PartOutside(s: seq<nat>, i: nat, j: nat, good: multiset<nat>, bad: multiset<nat>)
    requires i <= j <= |s| && multiset(s) == good + bad
    requires forall x :: x in s[i..j] ==> x !in good
    ensures j - i <= |bad|
  {
    assert s == s[..i] + s[i..j] + s[j..];
    assert |multiset(s[i..j])| == j - i;
    AllFromBad(multiset(s[i..j]), good, bad);
  }

  /** With `k` outliers, reading `k` of the sorted ones is not below the others. */
  lemma NotBelow(s: seq<nat>, good: multiset<nat>, bad: multiset<nat>, lo: nat)
    requires Sorted(s) && multiset(s) == good + bad && |bad| < |s|
    requires forall x :: x in good ==> lo <= x
    ensures lo <= s[|bad|]
  {
    if s[|bad|] < lo {
      PartOutside(s, 0, |bad| + 1, good, bad);
    }
  }

  /** Nor is the one `k` places before the last above them. */
  lemma NotAbove(s: seq<nat>, good: multiset<nat>, bad: multiset<nat>, hi: nat)
    requires Sorted(s) && multiset(s) == good + bad && |bad| < |s|
    requires forall x :: x in good ==> x <= hi
    ensures s[|s| - 1 - |bad|] <= hi
  {
    if s[|s| - 1 - |bad|] > hi {
      PartOutside(s, |s| - 1 - |bad|, |s|, good, bad);
    }
  }

  /** Up to two readings may be anything: the average still lies between the smallest and
      the largest of the others. */
  lemma RobustAverage(raw: seq<nat>, good: multiset<nat>, bad: multiset<nat>, lo: nat, hi: nat)
    requires |raw| == ADC_SAMPLE_NUM && multiset(Readings(raw)) == good + bad && |bad| <= 2
    requires forall x :: x in good ==> lo <= x <= hi
    ensures |Sort(Readings(raw))| == ADC_SAMPLE_NUM
    ensures lo <= Average(Sort(Readings(raw))) <= hi
  {
    hide Sort, Readings;
    SortSorts(Readings(raw));
    NotBelow(Sort(Readings(raw)), good, bad, lo);
    NotAbove(Sort(Readings(raw)), good, bad, hi);
  }

  /** The voltage a raw conversion stands for: its low 14 bits in two's complement. */
  function Voltage(raw: nat): int {
    var low := raw % 0x4000;
    if low < 0x2000 then low else low - 0x4000
  }

  function NotNegative(v: int): nat { if v >= 0 then v else 0 }

  /** All conversions but those of `odd`, two at most, are voltages within `lo..hi`. */
  ghost predicate MostWithin(raw: seq<nat>, lo: int, hi: int, odd: set<nat>) {
    |odd| <= 2 && forall i :: 0 <= i < |raw| && i !in odd ==> lo <= Voltage(raw[i]) <= hi
  }

  lemma ReadingOfVoltage(raw: nat)
    ensures Reading(raw) == NotNegative(Voltage(raw))
  {
    assert raw % 0x4000 == raw / 0x2000 % 2 * 0x2000 + raw % 0x2000;
  }

  /** The elements of `rs` at the places in `odd`, and the others. */
  function Pick(rs: seq<nat>, odd: set<nat>, inside: bool): multiset<nat> {
    if |rs| == 0 then multiset{}
    else
      var n := |rs| - 1;
      Pick(rs[..n], odd, inside) + (if (n in odd) == inside then multiset{rs[n]} else multiset{})
  }

  lemma {:induction false} PickSplits(rs: seq<nat>, odd: set<nat>)
    ensures multiset(rs) == Pick(rs, odd, false) + Pick(rs, odd, true)
    ensures forall x :: x in Pick(rs, odd, false) ==> exists i :: 0 <= i < |rs| && i !in odd && rs[i] == x
  {
    if |rs| > 0 {
      var n := |rs| - 1;
      PickSplits(rs[..n], odd);
      assert rs == rs[..n] + [rs[n]];
      forall x | x in Pick(rs, odd, false)
        ensures exists i :: 0 <= i < |rs| && i !in odd && rs[i] == x
      {
        if x in Pick(rs[..n], odd, false) {
          var i :| 0 <= i < n && i !in odd && rs[..n][i] == x;
          assert rs[i] == x;
        } else {
          assert rs[n] == x;
        }
      }
    }
  }

  lemma {:induction false} PickCount(rs: seq<nat>, odd: set<nat>)
    ensures |Pick(rs, odd, true)| <= |odd|
  {
    if |rs| > 0 {
      var n := |rs| - 1;
      if n in odd {
        PickCount(rs[..n], odd - {n});
        SamePick(rs[..n], odd, odd - {n});
      } else {
        PickCount(rs[..n], odd);
      }
    }
  }

  lemma {:induction false} SamePick(rs: seq<nat>, a: set<nat>, b: set<nat>)
    requires forall i :: 0 <= i < |rs| ==> (i in a <==> i in b)
    ensures Pick(rs, a, true) == Pick(rs, b, true)
  {
    if |rs| > 0 {
      SamePick(rs[..|rs| - 1], a, b);
    }
  }

  /** Whatever two of the eight conversions are, the result lies in the range of the voltages
      of the others, negative ones counting as zero. */
  lemma RobustVoltage(raw: seq<nat>, lo: int, hi: int, odd: set<nat>)
    requires |raw| == ADC_SAMPLE_NUM && MostWithin(raw, lo, hi, odd)
    ensures |Sort(Readings(raw))| == ADC_SAMPLE_NUM
    ensures NotNegative(lo) <= Average(Sort(Readings(raw))) <= NotNegative(hi)
  {
    hide Sort, Average, Reading, Voltage, Pick;
    var rs := Readings(raw);
    PickSplits(rs, odd);
    PickCount(rs, odd);
    forall x | x in Pick(rs, odd, false)
      ensures NotNegative(lo) <= x <= NotNegative(hi)
    {
      var i :| 0 <= i < |rs| && i !in odd && rs[i] == x;
      ReadingOfVoltage(raw[i]);
    }
    RobustAverage(raw, Pick(rs, odd, false), Pick(rs, odd, true), NotNegative(lo), NotNegative(hi));
  }

  /** The middle four readings weigh the same and the others nothing: raising one of them by
      four raises the average by one. */
  lemma EqualWeights(s: seq<nat>, i: nat)
    requires |s| == ADC_SAMPLE_NUM && i < ADC_SAMPLE_NUM
    ensures Average(s[i := s[i] + 4]) == if 2 <= i < 6 then Average(s) + 1 else Average(s)
  {
  }

  /** Three outliers can move the average out of the range `lo..hi` of the other readings. */
  ghost predicate ThreeCanSpoil(lo: nat, hi: nat) {
    exists raw, good, bad :: Spoiled(raw, good, bad, lo, hi)
  }

  ghost predicate Spoiled(raw: seq<nat>, good: multiset<nat>, bad: multiset<nat>, lo: nat, hi: nat) {
    && |raw| == ADC_SAMPLE_NUM && multiset(Readings(raw)) == good + bad && |bad| == 3
    && (forall x :: x in good ==> lo <= x <= hi)
    && |Sort(Readings(raw))| == ADC_SAMPLE_NUM
    && !(lo <= Average(Sort(Readings(raw))) <= hi)
  }

  /** Two is the limit: three outliers can spoil the average, except for a range that begins at
      zero and ends less than four below the largest reading. */
  lemma ThreeOutliersAreTooMany(lo: nat, hi: nat)
    requires lo <= hi < 0x2000
    ensures ThreeCanSpoil(lo, hi) <==> lo > 0 || hi + 4 < 0x2000
  {
    hide Sort, Readings;
    if lo > 0 {
      ThreeLow(lo, hi);
    } else if hi + 4 < 0x2000 {
      ThreeHigh(lo, hi);
    } else {
      forall raw, good, bad
        ensures !Spoiled(raw, good, bad, lo, hi)
      {
        if Spoiled(raw, good, bad, lo, hi) {
          AlmostFullRange(raw, good, bad, hi);
        }
      }
    }
  }

  function Repeat(x: nat, n: nat): (s: seq<nat>)
    ensures |s| == n && forall k :: 0 <= k < n ==> s[k] == x
  {
    seq(n, _ => x)
  }

  lemma ThreeLow(lo: nat, hi: nat)
    requires 0 < lo <= hi < 0x2000
    ensures ThreeCanSpoil(lo, hi)
  {
    hide Spoiled;
    var raw := Repeat(0, 3) + Repeat(lo, 5);
    Spoil(raw, Repeat(lo, 5), Repeat(0, 3), lo, hi);
  }

  lemma ThreeHigh(lo: nat, hi: nat)
    requires lo <= hi && hi + 4 < 0x2000
    ensures ThreeCanSpoil(lo, hi)
  {
    hide Spoiled;
    var raw := Repeat(hi, 5) + Repeat(hi + 4, 3);
    Spoil(raw, Repeat(hi, 5), Repeat(hi + 4, 3), lo, hi);
  }

  /** Sorted readings, five of them in the range. */
  lemma Spoil(raw: seq<nat>, five: seq<nat>, three: seq<nat>, lo: nat, hi: nat)
    requires |five| == 5 && |three| == 3 && (raw == three + five || raw == five + three)
    requires Sorted(raw) && forall k :: 0 <= k < |raw| ==> raw[k] < 0x2000
    requires forall k :: 0 <= k < 5 ==> lo <= five[k] <= hi
    requires !(lo <= Average(raw) <= hi)
    ensures Spoiled(raw, multiset(five), multiset(three), lo, hi)
  {
    hide Sort, Readings, Sorted, Average;
    ReadAsTheyAre(raw);
    SortOfSorted(raw);
    assert multiset(raw) == multiset(five) + multiset(three);
    assert |multiset(three)| == |three|;
    forall x | x in multiset(five)
      ensures lo <= x <= hi
    {
      assert x in five;
    }
  }

  lemma ReadAsTheyAre(raw: seq<nat>)
    requires forall k :: 0 <= k < |raw| ==> raw[k] < 0x2000
    ensures Readings(raw) == raw
  {
    forall k | 0 <= k < |raw|
      ensures Reading(raw[k]) == raw[k]
    {
    }
  }

  lemma AlmostFullRange(raw: seq<nat>, good: multiset<nat>, bad: multiset<nat>, hi: nat)
    requires |raw| == ADC_SAMPLE_NUM && multiset(Readings(raw)) == good + bad && |bad| == 3
    requires (forall x :: x in good ==> x <= hi) && hi + 4 >= 0x2000
    ensures |Sort(Readings(raw))| == ADC_SAMPLE_NUM && Average(Sort(Readings(raw))) <= hi
  {
    hide Sort, Readings;
    var s := Sort(Readings(raw));
    SortSorts(Readings(raw));
    NotAbove(s, good, bad, hi);
    assert s[5] in multiset(s);
    ReadingsBelow(raw, s[5]);
  }

  lemma ReadingsBelow(raw: seq<nat>, x: nat)
    requires x in multiset(Readings(raw))
    ensures x < 0x2000
  {
    var i :| 0 <= i < |raw| && Readings(raw)[i] == x;
  }
}
