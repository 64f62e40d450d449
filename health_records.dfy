/** The records kept by health/HealthList.java, as values, and the functions
    that specify its three lists: the cycle-length back-fill of addPeriod,
    the (date, time) order addAppointment keeps, removal by position, and the
    next-period prediction. */
module HealthRecords {
  import opened Errors
  import opened Calendar

  /** A BMI entry: the validated height and weight texts and the date. The
      BMI value itself is a floating-point quotient and is not modelled. */
  datatype Bmi = Bmi(height: string, weight: string, date: Day)

  /** A period: start and end dates and the cycle length, unset until the
      next period is added. */
  datatype Period = Period(start: Day, end: Day, cycleLength: Option<int>)

  /** An appointment: its date, its time as minutes after midnight, and its
      description. */
  datatype Appointment = Appointment(date: Day, time: int, description: string)

  // ---------------------------------------------------------------------
  // Removal by position (ArrayList.remove(int))

  function RemoveAt<T>(s: seq<T>, i: int): (r: seq<T>)
    requires 0 <= i < |s|
    ensures |r| == |s| - 1
    ensures forall k :: 0 <= k < i ==> r[k] == s[k]
    ensures forall k :: i <= k < |r| ==> r[k] == s[k + 1]
    ensures multiset(r) + multiset{s[i]} == multiset(s)
  {
    assert s == s[..i] + [s[i]] + s[i + 1..];
    s[..i] + s[i + 1..]
  }

  // ---------------------------------------------------------------------
  // Periods

  /** Period.setCycleLength(nextStart): the days from this period's start to
      the next period's start. */
  function WithCycleLength(p: Period, nextStart: Day): (r: Period)
    ensures r.start == p.start && r.end == p.end
    ensures r.cycleLength.Some? && r.start + r.cycleLength.value == nextStart
  {
    p.(cycleLength := Some(DaysBetween(p.start, nextStart)))
  }

  /** The list addPeriod leaves: the previous last period gets the cycle
      length up to the new start date, then the new period is appended. */
  function AppendPeriod(periods: seq<Period>, p: Period): (r: seq<Period>)
    ensures |r| == |periods| + 1 && r[|periods|] == p
    ensures forall i :: 0 <= i < |periods| - 1 ==> r[i] == periods[i]
    ensures periods != [] ==>
      var prev := periods[|periods| - 1];
      var filled := r[|periods| - 1];
      filled.start == prev.start && filled.end == prev.end
      && filled.cycleLength == Some(p.start - prev.start)
  {
    if periods == [] then [p]
    else periods[..|periods| - 1] + [WithCycleLength(periods[|periods| - 1], p.start)] + [p]
  }

  /** Every period but the last carries the gap to its successor's start; the
      last has none yet. */
  ghost predicate BackFilled(ps: seq<Period>)
  {
    && (forall i :: 0 <= i < |ps| - 1 ==> ps[i].cycleLength == Some(ps[i + 1].start - ps[i].start))
    && (ps != [] ==> ps[|ps| - 1].cycleLength == None)
  }

  /** Adding a fresh period (cycle length unset) keeps a list back-filled. */
  lemma AppendPeriodBackFilled(ps: seq<Period>, p: Period)
    requires BackFilled(ps) && p.cycleLength == None
    ensures BackFilled(AppendPeriod(ps, p))
  {
  }

  /** Adding a period and then deleting it restores the list exactly when the
      previous last period already held the cycle length the add wrote. */
  lemma AddThenDeletePeriod(ps: seq<Period>, p: Period)
    requires ps != []
    ensures RemoveAt(AppendPeriod(ps, p), |ps|) == ps <==>
      ps[|ps| - 1].cycleLength == Some(p.start - ps[|ps| - 1].start)
  {
    var r := RemoveAt(AppendPeriod(ps, p), |ps|);
    if r == ps {
      assert r[|ps| - 1] == ps[|ps| - 1];
    }
  }

  const DefaultCycleLength := 28

  /** The cycle lengths recorded in a list, oldest first. */
  function CycleLengths(ps: seq<Period>): seq<int>
  {
    if ps == [] then []
    else
      var last := ps[|ps| - 1];
      CycleLengths(ps[..|ps| - 1]) + (if last.cycleLength.Some? then [last.cycleLength.value] else [])
  }

  /** The start-to-start gaps of consecutive periods. */
  function Gaps(ps: seq<Period>): (g: seq<int>)
    ensures |g| == if ps == [] then 0 else |ps| - 1
    ensures forall i :: 0 <= i < |ps| - 1 ==> g[i] == ps[i + 1].start - ps[i].start
  {
    if |ps| <= 1 then [] else Gaps(ps[..|ps| - 1]) + [ps[|ps| - 1].start - ps[|ps| - 2].start]
  }

  /** When every period but the last carries the gap to its successor, the
      recorded cycle lengths are those gaps, followed by the last period's
      own cycle length if it has one. */
  lemma {:induction false} FilledCycleLengths(ps: seq<Period>)
    requires ps != []
    requires forall i :: 0 <= i < |ps| - 1 ==> ps[i].cycleLength == Some(ps[i + 1].start - ps[i].start)
    ensures CycleLengths(ps) == Gaps(ps) + (if ps[|ps| - 1].cycleLength.Some? then [ps[|ps| - 1].cycleLength.value] else [])
  {
    var init := ps[..|ps| - 1];
    var last := ps[|ps| - 1];
    var own := if last.cycleLength.Some? then [last.cycleLength.value] else [];
    assert CycleLengths(ps) == CycleLengths(init) + own;
    if init == [] {
      assert CycleLengths(init) == [];
      assert Gaps(ps) == [];
    } else {
      FilledCycleLengths(init);
      var prev := init[|init| - 1];
      assert prev == ps[|ps| - 2];
      assert CycleLengths(init) == Gaps(init) + [last.start - prev.start];
      assert Gaps(ps) == Gaps(init) + [last.start - prev.start];
    }
  }

  /** In a back-filled list the recorded cycle lengths are exactly the gaps
      between consecutive start dates. */
  lemma BackFilledCycleLengths(ps: seq<Period>)
    requires BackFilled(ps)
    ensures CycleLengths(ps) == Gaps(ps)
  {
    if ps != [] {
      FilledCycleLengths(ps);
    }
  }

  function LastThree(xs: seq<int>): (r: seq<int>)
    ensures |r| == if |xs| < 3 then |xs| else 3
    ensures r == xs[|xs| - |r|..]
  {
    if |xs| <= 3 then xs else xs[|xs| - 3..]
  }

  function Sum(xs: seq<int>): int
  {
    if xs == [] then 0 else Sum(xs[..|xs| - 1]) + xs[|xs| - 1]
  }

  /** The average (rounded down) of the last three recorded cycle lengths, or
      of all of them when fewer are recorded, or the default 28 days. */
  function AverageCycleLength(ps: seq<Period>): (r: int)
    ensures var recent := LastThree(CycleLengths(ps));
      && (recent == [] ==> r == DefaultCycleLength)
      && (recent != [] ==> |recent| * r <= Sum(recent) < |recent| * (r + 1))
  {
    var recent := LastThree(CycleLengths(ps));
    if recent == [] then DefaultCycleLength
    else
      FloorDivision(Sum(recent), |recent|);
      Sum(recent) / |recent|
  }

  /** The quotient rounded down: k times it is at most s, and k times one
      more exceeds s. */
  lemma FloorDivision(s: int, k: int)
    requires k > 0
    ensures k * (s / k) <= s < k * (s / k + 1)
  {
    var q, m := s / k, s % k;
    assert s == k * q + m && 0 <= m < k;
    assert k * (q + 1) == k * q + k;
  }

  /** Period.nextCyclePrediction of the latest period: its start plus the
      average cycle length. */
  function PredictNextStart(ps: seq<Period>): (r: Day)
    requires ps != []
    ensures var start, recent := ps[|ps| - 1].start, LastThree(CycleLengths(ps));
      && (recent == [] ==> r == start + DefaultCycleLength)
      && (recent != [] ==> |recent| * (r - start) <= Sum(recent) < |recent| * (r - start + 1))
  {
    ps[|ps| - 1].start + AverageCycleLength(ps)
  }

  lemma {:induction false} SumBounds(xs: seq<int>, lo: int, hi: int)
    requires forall i :: 0 <= i < |xs| ==> lo <= xs[i] <= hi
    ensures lo * |xs| <= Sum(xs) <= hi * |xs|
  {
    if xs != [] {
      var n := |xs|;
      SumBounds(xs[..n - 1], lo, hi);
      assert Sum(xs) == Sum(xs[..n - 1]) + xs[n - 1];
      assert lo * n == lo * (n - 1) + lo && hi * n == hi * (n - 1) + hi;
    }
  }

  /** The average, rounded down, of k values with sum in [k lo, k hi] lies in
      [lo, hi], for the averaged counts 1 to 3. */
  lemma AverageBounds(s: int, k: int, lo: int, hi: int)
    requires 1 <= k <= 3 && lo * k <= s <= hi * k
    ensures lo <= s / k <= hi
  {
    if k == 2 {
      assert lo * 2 <= s <= hi * 2;
    } else if k == 3 {
      assert lo * 3 <= s <= hi * 3;
    }
  }

  /** The predicted gap lies between the shortest and the longest of the
      recent cycle lengths, and is 28 days when none is recorded. */
  lemma PredictionWithinRecentCycles(ps: seq<Period>, lo: int, hi: int)
    requires ps != []
    requires forall i :: 0 <= i < |LastThree(CycleLengths(ps))| ==> lo <= LastThree(CycleLengths(ps))[i] <= hi
    ensures CycleLengths(ps) == [] ==> PredictNextStart(ps) == ps[|ps| - 1].start + DefaultCycleLength
    ensures CycleLengths(ps) != [] ==> ps[|ps| - 1].start + lo <= PredictNextStart(ps) <= ps[|ps| - 1].start + hi
  {
    var recent := LastThree(CycleLengths(ps));
    if recent != [] {
      SumBounds(recent, lo, hi);
      AverageBounds(Sum(recent), |recent|, lo, hi);
    }
  }

  /** Two periods starting 1 January 2024 and 29 January 2024: the first
      gets a cycle length of 28 days, the second none, and the next period is
      predicted for 26 February 2024. */
  lemma TwoPeriodsExample()
    ensures var p1 := Period(EpochDay(2024, 1, 1), EpochDay(2024, 1, 5), None);
            var p2 := Period(EpochDay(2024, 1, 29), EpochDay(2024, 2, 2), None);
            var ps := AppendPeriod(AppendPeriod([], p1), p2);
            ps[0].cycleLength == Some(28) && ps[1].cycleLength == None
            && PredictNextStart(ps) == EpochDay(2024, 2, 26)
  {
    var p1 := Period(EpochDay(2024, 1, 1), EpochDay(2024, 1, 5), None);
    var p2 := Period(EpochDay(2024, 1, 29), EpochDay(2024, 2, 2), None);
    assert p2.start - p1.start == 28;
    assert p2.start + 28 == EpochDay(2024, 2, 26);
    var ps := AppendPeriod(AppendPeriod([], p1), p2);
    assert BackFilled(ps);
    BackFilledCycleLengths(ps);
    assert Gaps(ps) == [28];
    assert Sum([28]) == 28 by {
      assert [28][..0] == [];
    }
  }

  // ---------------------------------------------------------------------
  // Appointments

  /** The sign Comparator.comparing(getDate).thenComparing(getTime) gives:
      the dates compared, and the times when the dates are equal. */
  function Compare(a: Appointment, b: Appointment): (r: int)
    ensures -1 <= r <= 1
    ensures r == 0 <==> Key(a) == Key(b)
    ensures r < 0 <==> Key(a) != Key(b) && (a.date < b.date || (a.date == b.date && a.time < b.time))
  {
    if a.date < b.date then -1
    else if a.date > b.date then 1
    else if a.time < b.time then -1
    else if a.time > b.time then 1
    else 0
  }

  /** a may stay before b in the sorted list: the comparator does not put a
      after b. */
  predicate KeyLe(a: Appointment, b: Appointment): (r: bool)
    ensures r <==> Compare(a, b) <= 0
  {
    a.date < b.date || (a.date == b.date && a.time <= b.time)
  }

  function Key(a: Appointment): (int, int) { (a.date, a.time) }

  /** The comparator is a total preorder whose ties are exactly the equal
      (date, time) keys, as List.sort requires of it. */
  lemma KeyLeTotalPreorder(a: Appointment, b: Appointment, c: Appointment)
    ensures KeyLe(a, b) || KeyLe(b, a)
    ensures KeyLe(a, b) && KeyLe(b, c) ==> KeyLe(a, c)
    ensures KeyLe(a, b) && KeyLe(b, a) <==> Key(a) == Key(b)
    ensures Compare(a, b) == -Compare(b, a)
  {
  }

  ghost predicate SortedByKey(xs: seq<Appointment>)
  {
    forall i, j :: 0 <= i < j < |xs| ==> KeyLe(xs[i], xs[j])
  }

  /** The elements of xs with key k, in their order in xs. */
  function KeyFilter(xs: seq<Appointment>, k: (int, int)): seq<Appointment>
  {
    if xs == [] then []
    else KeyFilter(xs[..|xs| - 1], k) + (if Key(xs[|xs| - 1]) == k then [xs[|xs| - 1]] else [])
  }

  /** Places a after every element, scanning from the back, whose key is not
      greater than its own. */
  function InsertLast(xs: seq<Appointment>, a: Appointment): (r: seq<Appointment>)
    ensures |r| == |xs| + 1
  {
    if xs == [] then [a]
    else if KeyLe(xs[|xs| - 1], a) then xs + [a]
    else InsertLast(xs[..|xs| - 1], a) + [xs[|xs| - 1]]
  }

  /** List.sort with the (date, time) comparator: a stable sort. */
  function Sort(xs: seq<Appointment>): (r: seq<Appointment>)
    ensures |r| == |xs|
  {
    if xs == [] then [] else InsertLast(Sort(xs[..|xs| - 1]), xs[|xs| - 1])
  }

  /** Where InsertLast puts a: after a prefix whose last element is not
      greater, before a suffix all greater. */
  lemma {:induction false} InsertLastSplit(xs: seq<Appointment>, a: Appointment) returns (p: nat)
    ensures p <= |xs| && InsertLast(xs, a) == xs[..p] + [a] + xs[p..]
    ensures forall k :: p <= k < |xs| ==> !KeyLe(xs[k], a)
    ensures p > 0 ==> KeyLe(xs[p - 1], a)
  {
    if xs == [] {
      p := 0;
    } else if KeyLe(xs[|xs| - 1], a) {
      p := |xs|;
    } else {
      var init, last := xs[..|xs| - 1], xs[|xs| - 1];
      p := InsertLastSplit(init, a);
      assert xs == init + [last];
      assert init[..p] == xs[..p];
      assert init[p..] + [last] == xs[p..];
      assert InsertLast(xs, a) == init[..p] + [a] + init[p..] + [last];
    }
  }

  lemma InsertLastSorted(xs: seq<Appointment>, a: Appointment)
    requires SortedByKey(xs)
    ensures SortedByKey(InsertLast(xs, a))
  {
    var p := InsertLastSplit(xs, a);
    var left, right := xs[..p], xs[p..];
    assert xs == left + right;
    forall i | 0 <= i < |left| ensures KeyLe(left[i], a) {
      assert KeyLe(xs[i], xs[p - 1]);
    }
    forall j | 0 <= j < |right| ensures KeyLe(a, right[j]) {
      assert !KeyLe(xs[p + j], a);
    }
    SortedAround(left, a, right);
  }

  lemma InsertLastPermutation(xs: seq<Appointment>, a: Appointment)
    ensures multiset(InsertLast(xs, a)) == multiset(xs) + multiset{a}
  {
    var p := InsertLastSplit(xs, a);
    var left, right := xs[..p], xs[p..];
    assert xs == left + right;
    assert multiset(xs) == multiset(left) + multiset(right);
    assert multiset(left + [a] + right) == multiset(left) + multiset{a} + multiset(right);
  }

  lemma SortedAround(left: seq<Appointment>, a: Appointment, right: seq<Appointment>)
    requires SortedByKey(left + right)
    requires forall i :: 0 <= i < |left| ==> KeyLe(left[i], a)
    requires forall j :: 0 <= j < |right| ==> KeyLe(a, right[j])
    ensures SortedByKey(left + [a] + right)
  {
    var r := left + [a] + right;
    var lr := left + right;
    forall i, j | 0 <= i < j < |r| ensures KeyLe(r[i], r[j]) {
      var n := |left|;
      if j < n {
        assert r[i] == lr[i] && r[j] == lr[j];
      } else if j == n {
        assert r[i] == left[i];
      } else if i < n {
        assert r[i] == lr[i] && r[j] == lr[j - 1];
      } else if i == n {
        assert r[j] == right[j - n - 1];
      } else {
        assert r[i] == lr[i - 1] && r[j] == lr[j - 1];
      }
    }
  }

  lemma {:induction false} KeyFilterConcat(xs: seq<Appointment>, ys: seq<Appointment>, k: (int, int))
    ensures KeyFilter(xs + ys, k) == KeyFilter(xs, k) + KeyFilter(ys, k)
  {
    if ys != [] {
      var init := ys[..|ys| - 1];
      assert (xs + ys)[..|xs + ys| - 1] == xs + init;
      KeyFilterConcat(xs, init, k);
    } else {
      assert xs + ys == xs;
    }
  }

  lemma {:induction false} KeyFilterNone(xs: seq<Appointment>, k: (int, int))
    requires forall i :: 0 <= i < |xs| ==> Key(xs[i]) != k
    ensures KeyFilter(xs, k) == []
  {
    if xs != [] {
      KeyFilterNone(xs[..|xs| - 1], k);
    }
  }

  /** InsertLast puts a after every element with the same key. */
  lemma InsertLastStable(xs: seq<Appointment>, a: Appointment, k: (int, int))
    ensures KeyFilter(InsertLast(xs, a), k) == KeyFilter(xs, k) + (if Key(a) == k then [a] else [])
  {
    var p := InsertLastPoint(xs, a);
    var before, after := xs[..p], xs[p..];
    var fb, fa := KeyFilter(before, k), KeyFilter(after, k);
    var single := if Key(a) == k then [a] else [];
    assert KeyFilter(InsertLast(xs, a), k) == fb + single + fa by {
      KeyFilterAround(before, a, after, k);
    }
    assert KeyFilter(xs, k) == fb + fa by {
      assert xs == before + after;
      KeyFilterConcat(before, after, k);
    }
    if Key(a) == k {
      assert fa == [];
      assert fb + single + fa == fb + single;
      assert fb + fa == fb;
    } else {
      assert fb + single + fa == fb + fa;
    }
  }

  /** Filtering an element placed between two parts. */
  lemma KeyFilterAround(before: seq<Appointment>, a: Appointment, after: seq<Appointment>, k: (int, int))
    ensures KeyFilter(before + [a] + after, k)
      == KeyFilter(before, k) + (if Key(a) == k then [a] else []) + KeyFilter(after, k)
  {
    KeyFilterConcat(before + [a], after, k);
    KeyFilterConcat(before, [a], k);
    assert KeyFilter([a], k) == if Key(a) == k then [a] else [] by {
      assert [a][..0] == [];
    }
  }

  /** The insertion point, with no appointment after it sharing the inserted
      one's key. */
  lemma InsertLastPoint(xs: seq<Appointment>, a: Appointment) returns (p: nat)
    ensures p <= |xs| && InsertLast(xs, a) == xs[..p] + [a] + xs[p..]
    ensures KeyFilter(xs[p..], Key(a)) == []
  {
    p := InsertLastSplit(xs, a);
    forall i | 0 <= i < |xs[p..]| ensures Key(xs[p..][i]) != Key(a) {
      assert !KeyLe(xs[p + i], a);
    }
    KeyFilterNone(xs[p..], Key(a));
  }

  lemma {:induction false} SortSorted(xs: seq<Appointment>)
    ensures SortedByKey(Sort(xs))
  {
    if xs != [] {
      SortSorted(xs[..|xs| - 1]);
      InsertLastSorted(Sort(xs[..|xs| - 1]), xs[|xs| - 1]);
    }
  }

  lemma {:induction false} SortPermutation(xs: seq<Appointment>)
    ensures multiset(Sort(xs)) == multiset(xs)
  {
    if xs != [] {
      var init, last := xs[..|xs| - 1], xs[|xs| - 1];
      var sorted := Sort(init);
      assert Sort(xs) == InsertLast(sorted, last);
      SortPermutation(init);
      InsertLastPermutation(sorted, last);
      LastSplit(xs);
    }
  }

  /** The multiset of a non-empty list: that of all but its last element,
      plus the last. */
  lemma LastSplit(xs: seq<Appointment>)
    requires xs != []
    ensures multiset(xs) == multiset(xs[..|xs| - 1]) + multiset{xs[|xs| - 1]}
  {
    assert xs == xs[..|xs| - 1] + [xs[|xs| - 1]];
  }

  lemma {:induction false} SortStable(xs: seq<Appointment>, k: (int, int))
    ensures KeyFilter(Sort(xs), k) == KeyFilter(xs, k)
  {
    if xs != [] {
      var init, last := xs[..|xs| - 1], xs[|xs| - 1];
      SortStable(init, k);
      InsertLastStable(Sort(init), last, k);
    }
  }

  /** Sort orders by (date, time), keeps the elements, and keeps the order of
      elements with equal keys (stability). */
  lemma SortCorrect(xs: seq<Appointment>)
    ensures SortedByKey(Sort(xs))
    ensures multiset(Sort(xs)) == multiset(xs)
    ensures forall k :: KeyFilter(Sort(xs), k) == KeyFilter(xs, k)
  {
    SortSorted(xs);
    SortPermutation(xs);
    forall k ensures KeyFilter(Sort(xs), k) == KeyFilter(xs, k) {
      SortStable(xs, k);
    }
  }

  /** A sorted list is left as it is. */
  lemma {:induction false} SortOfSorted(xs: seq<Appointment>)
    requires SortedByKey(xs)
    ensures Sort(xs) == xs
  {
    if xs != [] {
      var init := xs[..|xs| - 1];
      SortOfSorted(init);
      assert xs == init + [xs[|xs| - 1]];
    }
  }

  /** Appending to a sorted list and re-sorting inserts the new appointment
      after every appointment with an earlier or equal (date, time). */
  lemma AppendThenSort(xs: seq<Appointment>, a: Appointment)
    requires SortedByKey(xs)
    ensures Sort(xs + [a]) == InsertLast(xs, a)
  {
    assert (xs + [a])[..|xs|] == xs;
    SortOfSorted(xs);
  }

  /** Removing an element keeps a list sorted. */
  lemma RemoveAtSorted(xs: seq<Appointment>, i: int)
    requires SortedByKey(xs) && 0 <= i < |xs|
    ensures SortedByKey(RemoveAt(xs, i))
  {
    var r := RemoveAt(xs, i);
    forall a, b | 0 <= a < b < |r| ensures KeyLe(r[a], r[b]) {
      var a', b' := if a < i then a else a + 1, if b < i then b else b + 1;
      assert r[a] == xs[a'] && r[b] == xs[b'];
    }
  }

  /** Adding an appointment and deleting the one at the position it landed
      on restores the list. */
  lemma AddThenDeleteAppointment(xs: seq<Appointment>, a: Appointment) returns (p: nat)
    requires SortedByKey(xs)
    ensures p < |Sort(xs + [a])| && Sort(xs + [a])[p] == a
    ensures RemoveAt(Sort(xs + [a]), p) == xs
  {
    AppendThenSort(xs, a);
    p := InsertLastSplit(xs, a);
    var ys := xs[..p] + [a] + xs[p..];
    assert ys[..p] == xs[..p] && ys[p + 1..] == xs[p..];
    assert RemoveAt(ys, p) == ys[..p] + ys[p + 1..];
    assert xs == xs[..p] + xs[p..];
  }
}
