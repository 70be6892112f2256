/** The mate-pair geometry of the assembly validator asmQC: classifying a mate
    pair by the orientation and distance of its two reads within a contig,
    turning a read tile into a contig range, and sweeping a set of ranges for
    the regions whose coverage is below or above a threshold.

    Pos_t is a 32-bit integer in the source; the model uses unbounded
    integers and does not model overflow of these sums and differences. */
module AsmQC {
  import opened Sorting

  datatype MateStatus = MP_GOOD | MP_SHORT | MP_LONG | MP_NORMAL | MP_OUTIE

  /** Range_t: a begin and an end; the read is forward when begin < end. */
  datatype Range = Range(begin: int, end: int)

  predicate Forward(r: Range)
  {
    r.begin < r.end
  }

  function Abs(x: int): nat
  {
    if x < 0 then -x else x
  }

  //-- mateLen

  /** Both reads point the same way. */
  predicate SameOrientation(a: Range, b: Range)
  {
    Forward(a) == Forward(b)
  }

  /** The reads point away from each other: the forward read begins to the
      right of the reverse read. */
  predicate Outie(a: Range, b: Range)
  {
    !SameOrientation(a, b) && (if Forward(a) then a.begin > b.begin else a.begin < b.begin)
  }

  /** Some read is closer than endDist to the contig end it points at. */
  predicate NearEnd(a: Range, b: Range, len: int, endDist: int)
  {
    (Forward(a) && len - a.begin < endDist) || (!Forward(a) && a.begin < endDist) ||
    (Forward(b) && len - b.begin < endDist) || (!Forward(b) && b.begin < endDist)
  }

  /** The distance between the reads of a mate pair whose reads lie at ranges
      a and b in a contig of length len, with the status that the call leaves
      in the mate pair (the source writes it through a reference). The
      distance is 0 for mis-oriented pairs, which are tagged MP_NORMAL or
      MP_OUTIE, and for pairs too close to the contig end, whose status is
      left alone. */
  function MateLen(status: MateStatus, a: Range, b: Range, len: int, endDist: int): (r: (int, MateStatus))
    ensures r.0 >= 0
    ensures SameOrientation(a, b) ==> r == (0, MP_NORMAL)
    ensures Outie(a, b) ==> r == (0, MP_OUTIE)
    ensures !SameOrientation(a, b) && !Outie(a, b) ==> r.1 == status
    ensures r.0 != 0 ==> !SameOrientation(a, b) && !Outie(a, b) && !NearEnd(a, b, len, endDist)
  {
    var oriA := if a.begin < a.end then 1 else -1;
    var oriB := if b.begin < b.end then 1 else -1;
    if oriA == oriB then (0, MP_NORMAL)
    else if oriA == 1 && a.begin > b.begin then (0, MP_OUTIE)
    else if oriA == -1 && a.begin < b.begin then (0, MP_OUTIE)
    else if (oriA == 1 && len - a.begin < endDist) || (oriA == -1 && a.begin < endDist)
         || (oriB == 1 && len - b.begin < endDist) || (oriB == -1 && b.begin < endDist)
    then (0, status)
    else (Abs(a.begin - b.begin), status)
  }

  /** For a correctly oriented pair away from the contig ends, the distance
      is how far the reverse read begins to the right of the forward read. */
  lemma {:induction false} MateLenInnieDistance(status: MateStatus, a: Range, b: Range, len: int, endDist: int)
    requires !SameOrientation(a, b) && !Outie(a, b) && !NearEnd(a, b, len, endDist)
    ensures var (fwd, rev) := if Forward(a) then (a, b) else (b, a);
            fwd.begin <= rev.begin && MateLen(status, a, b, len, endDist) == (rev.begin - fwd.begin, status)
  {
  }

  /** The two reads of a pair play symmetric roles. */
  lemma {:induction false} MateLenSymmetric(status: MateStatus, a: Range, b: Range, len: int, endDist: int)
    ensures MateLen(status, a, b, len, endDist) == MateLen(status, b, a, len, endDist)
  {
  }

  /** With reads inside the contig, an end distance of 0 switches the end
      check off: every correctly oriented pair then gets its distance. */
  lemma {:induction false} MateLenNoEndCheck(status: MateStatus, a: Range, b: Range, len: int)
    requires 0 <= a.begin <= len && 0 <= b.begin <= len
    requires !SameOrientation(a, b) && !Outie(a, b)
    ensures MateLen(status, a, b, len, 0) == (Abs(a.begin - b.begin), status)
  {
  }

  /** Shrinking the end distance never discards a distance that a larger end
      distance kept. */
  lemma {:induction false} MateLenEndMonotone(status: MateStatus, a: Range, b: Range, len: int, end1: int, end2: int)
    requires end2 <= end1
    requires MateLen(status, a, b, len, end1).0 != 0
    ensures MateLen(status, a, b, len, end2) == MateLen(status, a, b, len, end1)
  {
  }

  //-- Read tile to contig range

  /** Tile_t: a read placed at offset in a contig, with the range of the read
      that aligns there (end < begin for a reverse-complemented read). */
  datatype Tile = Tile(offset: int, range: Range)

  /** The begin and end of the read in contig coordinates: a reverse read
      begins at its right end. */
  function TileRange(t: Tile): (r: Range)
    ensures t.range.end < t.range.begin ==> r.begin > r.end
    ensures !(t.range.end < t.range.begin) ==> r.begin <= r.end
    ensures Abs(r.begin - r.end) == Abs(t.range.end - t.range.begin)
    ensures Forward(r) <==> Forward(t.range)
    ensures (if r.begin <= r.end then r.begin else r.end) == t.offset
  {
    var f := if t.range.end < t.range.begin then t.offset + t.range.begin - t.range.end else t.offset;
    var l := if t.range.end < t.range.begin then t.offset else t.offset + t.range.end - t.range.begin;
    Range(f, l)
  }

  //-- getCvg

  type Interval = (int, int)

  /** Every interval runs left to right and begins no earlier than any
      earlier interval ends. */
  ghost predicate Ordered(iv: seq<Interval>)
  {
    (forall k :: 0 <= k < |iv| ==> iv[k].0 <= iv[k].1) &&
    (forall j, k :: 0 <= j < k < |iv| ==> iv[j].1 <= iv[k].0)
  }

  ghost predicate WellFormedRanges(ranges: seq<Interval>)
  {
    forall i :: 0 <= i < |ranges| ==> ranges[i].0 <= ranges[i].1
  }

  ghost predicate InContig(ranges: seq<Interval>, ctglen: int)
  {
    0 <= ctglen && forall i :: 0 <= i < |ranges| ==> 0 <= ranges[i].0 && ranges[i].1 <= ctglen
  }

  function Firsts(ranges: seq<Interval>): (s: seq<int>)
    ensures |s| == |ranges| && forall i :: 0 <= i < |s| ==> s[i] == ranges[i].0
  {
    if ranges == [] then [] else [ranges[0].0] + Firsts(ranges[1..])
  }

  function Seconds(ranges: seq<Interval>): (s: seq<int>)
    ensures |s| == |ranges| && forall i :: 0 <= i < |s| ==> s[i] == ranges[i].1
  {
    if ranges == [] then [] else [ranges[0].1] + Seconds(ranges[1..])
  }

  /** When every range begins no later than it ends, at least as many ranges
      begin at or before x as end at or before x. */
  lemma {:induction false} CountStartsCoverEnds(ranges: seq<Interval>, x: int)
    requires WellFormedRanges(ranges)
    ensures CountLe(Firsts(ranges), x) >= CountLe(Seconds(ranges), x)
  {
    if ranges != [] {
      CountStartsCoverEnds(ranges[1..], x);
    }
  }

  /** The number of ranges [begin, end) that hold position x: the coverage
      at x. */
  ghost function Cov(ranges: seq<Interval>, x: int): nat
  {
    if ranges == [] then 0
    else (if ranges[0].0 <= x < ranges[0].1 then 1 else 0) + Cov(ranges[1..], x)
  }

  /** The coverage at x as a sweep sees it: the starts at or before x less
      the ends at or before x. */
  ghost function CovAt(starts: seq<int>, ends: seq<int>, x: int): int
  {
    CountLe(starts, x) - CountLe(ends, x)
  }

  /** A range holds x exactly when it starts at or before x and does not end
      at or before x, so coverage is a difference of two counts. */
  lemma {:induction false} CovFromBounds(ranges: seq<Interval>, x: int)
    requires WellFormedRanges(ranges)
    ensures Cov(ranges, x) == CovAt(Firsts(ranges), Seconds(ranges), x)
  {
    if ranges != [] {
      CovFromBounds(ranges[1..], x);
    }
  }

  /** The k-th smallest start is never after the k-th smallest end, so a
      sweep that takes starts before ends never lets coverage go negative. */
  lemma {:induction false} SortedStartsBeforeEnds(ranges: seq<Interval>)
    requires WellFormedRanges(ranges)
    ensures |Sort(Firsts(ranges))| == |Sort(Seconds(ranges))| == |ranges|
    ensures forall k :: 0 <= k < |ranges| ==> Sort(Firsts(ranges))[k] <= Sort(Seconds(ranges))[k]
  {
    var starts, ends := Sort(Firsts(ranges)), Sort(Seconds(ranges));
    forall k | 0 <= k < |ranges|
      ensures starts[k] <= ends[k]
    {
      var x := ends[k];
      CountLeSortedAtLeast(ends, k, x);
      CountLeSort(Seconds(ranges), x);
      CountStartsCoverEnds(ranges, x);
      CountLeSort(Firsts(ranges), x);
      if starts[k] > x {
        CountLeSortedAtMost(starts, k, x);
      }
    }
  }

  /** The starts and the ends of the ranges, in the order of the ranges. */
  method CollectBounds(ranges: seq<Interval>) returns (starts: seq<int>, ends: seq<int>)
    ensures starts == Firsts(ranges) && ends == Seconds(ranges)
  {
    starts, ends := [], [];
    var i := 0;
    while i < |ranges|
      invariant 0 <= i <= |ranges|
      invariant |starts| == |ends| == i
      invariant forall k :: 0 <= k < i ==> starts[k] == ranges[k].0 && ends[k] == ranges[k].1
    {
      starts := starts + [ranges[i].0];
      ends := ends + [ranges[i].1];
      i := i + 1;
    }
    assert starts == Firsts(ranges);
    assert ends == Seconds(ranges);
  }

  /** The starts and the ends of the ranges, each sorted in ascending
      order; the k-th start is no later than the k-th end. */
  method SortedBounds(ranges: seq<Interval>, ghost ctglen: int) returns (starts: seq<int>, ends: seq<int>)
    requires WellFormedRanges(ranges)
    ensures |starts| == |ends| == |ranges|
    ensures multiset(starts) == multiset(Firsts(ranges)) && multiset(ends) == multiset(Seconds(ranges))
    ensures Sorted(starts) && Sorted(ends)
    ensures forall k :: 0 <= k < |starts| ==> starts[k] <= ends[k]
    ensures InContig(ranges, ctglen) ==> Inside(starts, ends, ctglen)
    ensures forall x :: CovAt(starts, ends, x) == Cov(ranges, x)
  {
    var firsts, seconds := CollectBounds(ranges);
    starts, ends := Sort(firsts), Sort(seconds);
    SortedStartsBeforeEnds(ranges);
    forall x
      ensures CovAt(starts, ends, x) == Cov(ranges, x)
    {
      CountLeSort(firsts, x);
      CountLeSort(seconds, x);
      CovFromBounds(ranges, x);
    }
    if InContig(ranges, ctglen) {
      SortBounded(firsts, 0, ctglen);
      SortBounded(seconds, 0, ctglen);
    }
  }

  /** The regions of a contig of length ctglen whose coverage by ranges is
      at most coverage (above = false: from where it falls to coverage to
      where a start lifts it past coverage) or at least coverage
      (above = true: from where a start lifts it to coverage to where an end
      takes it below). The starts and the ends are swept in sorted order,
      a start before an end at the same position. For ranges inside the
      contig every reported position is on the reported side of coverage,
      and every position of the contig on that side is reported. */
  method GetCvg(ranges: seq<Interval>, ctglen: int, coverage: int, above: bool) returns (interest: seq<Interval>)
    requires WellFormedRanges(ranges)
    ensures |ranges| == 0 && above ==> interest == []
    ensures |ranges| == 0 && !above ==>
              interest == if coverage >= 0 || ctglen != 0 then [(0, ctglen)] else []
    ensures InContig(ranges, ctglen) ==> Ordered(interest)
    ensures InContig(ranges, ctglen) && !above && interest != [] ==> LastEnd(interest) <= ctglen
    ensures InContig(ranges, ctglen) ==>
              forall k :: 0 <= k < |interest| ==> 0 <= interest[k].0 && interest[k].1 <= ctglen
    ensures InContig(ranges, ctglen) && (above || coverage >= 0) ==>
              forall i, x :: 0 <= i < |interest| && Within(interest[i], x) ==> Meets(Cov(ranges, x), coverage, above)
    ensures InContig(ranges, ctglen) && (if above then coverage >= 1 else coverage >= 0) ==>
              forall x :: 0 <= x < ctglen && Meets(Cov(ranges, x), coverage, above) ==> Covered(interest, x)
  {
    interest := [];
    if |ranges| == 0 && above {
      return;
    }
    if |ranges| == 0 && coverage >= 0 {
      interest := [(0, ctglen)];
      return;
    }

    var starts, ends := SortedBounds(ranges, ctglen);
    interest := Sweep(starts, ends, ctglen, coverage, above);
  }

  /** The bounds of ranges lying in [0, ctglen]. */
  ghost predicate Inside(starts: seq<int>, ends: seq<int>, ctglen: int)
  {
    0 <= ctglen &&
    (forall k :: 0 <= k < |starts| ==> 0 <= starts[k]) &&
    (forall k :: 0 <= k < |ends| ==> ends[k] <= ctglen)
  }

  /** The end of the last interval, 0 for none. */
  ghost function LastEnd(iv: seq<Interval>): int
  {
    if iv == [] then 0 else iv[|iv| - 1].1
  }

  lemma {:induction false} OrderedSnoc(iv: seq<Interval>, x: Interval)
    requires Ordered(iv) && x.0 <= x.1
    requires iv != [] ==> LastEnd(iv) <= x.0
    ensures Ordered(iv + [x]) && LastEnd(iv + [x]) == x.1
  {
  }

  /** Coverage c is on the reported side of the threshold: at most coverage
      in the mode below, at least coverage in the mode above. */
  predicate Meets(c: int, coverage: int, above: bool)
  {
    if above then c >= coverage else c <= coverage
  }

  /** Position x lies in the half-open interval [iv.0, iv.1). */
  predicate Within(iv: Interval, x: int)
  {
    iv.0 <= x < iv.1
  }

  /** Some reported interval holds x. */
  ghost predicate Covered(interest: seq<Interval>, x: int)
  {
    exists i :: 0 <= i < |interest| && Within(interest[i], x)
  }

  /** Every position of every reported interval meets the threshold. */
  ghost predicate Reports(interest: seq<Interval>, starts: seq<int>, ends: seq<int>, coverage: int, above: bool)
  {
    forall i, x :: 0 <= i < |interest| && Within(interest[i], x) ==> Meets(CovAt(starts, ends, x), coverage, above)
  }

  /** What the sweep knows once it has passed every position before last:
      the intervals so far are sound; while the running coverage meets the
      threshold, the open interval from s to last does too; and every
      position before last that meets it is reported or lies in that open
      interval. */
  ghost predicate Tracks(starts: seq<int>, ends: seq<int>, coverage: int, above: bool,
                         interest: seq<Interval>, cvg: int, s: int, last: int)
  {
    Reports(interest, starts, ends, coverage, above) &&
    (Meets(cvg, coverage, above) ==>
       forall x :: s <= x < last ==> Meets(CovAt(starts, ends, x), coverage, above)) &&
    (forall x :: 0 <= x < last && Meets(CovAt(starts, ends, x), coverage, above) ==>
       Covered(interest, x) || (Meets(cvg, coverage, above) && s <= x))
  }

  /** In a sorted vector whose first k elements are at most x and whose
      others exceed it, exactly k elements are at most x. */
  lemma {:induction false} CountLeSplit(s: seq<int>, k: nat, x: int)
    requires Sorted(s) && k <= |s|
    requires k > 0 ==> s[k - 1] <= x
    requires k < |s| ==> x < s[k]
    ensures CountLe(s, x) == k
  {
    if k > 0 {
      CountLeSortedAtLeast(s, k - 1, x);
    }
    if k < |s| {
      CountLeSortedAtMost(s, k, x);
    }
  }

  /** Between the last bound taken and the next one, the coverage is the
      number of starts taken less the number of ends taken. */
  lemma {:induction false} CovBetween(starts: seq<int>, ends: seq<int>, si: nat, ei: nat, lo: int, hi: int)
    requires Sorted(starts) && Sorted(ends) && si <= |starts| && ei <= |ends|
    requires si > 0 ==> starts[si - 1] <= lo
    requires si < |starts| ==> hi <= starts[si]
    requires ei > 0 ==> ends[ei - 1] <= lo
    requires ei < |ends| ==> hi <= ends[ei]
    ensures forall x :: lo <= x < hi ==> CovAt(starts, ends, x) == si - ei
  {
    forall x | lo <= x < hi
      ensures CovAt(starts, ends, x) == si - ei
    {
      CountLeSplit(starts, si, x);
      CountLeSplit(ends, ei, x);
    }
  }

  lemma {:induction false} CoveredSnoc(interest: seq<Interval>, iv: Interval)
    ensures forall x :: Covered(interest + [iv], x) <==> Covered(interest, x) || Within(iv, x)
  {
    forall x
      ensures Covered(interest + [iv], x) <==> Covered(interest, x) || Within(iv, x)
    {
      if Covered(interest + [iv], x) {
        var i :| 0 <= i < |interest| + 1 && Within((interest + [iv])[i], x);
        if i < |interest| {
          assert Within(interest[i], x);
        }
      }
      if Covered(interest, x) {
        var i :| 0 <= i < |interest| && Within(interest[i], x);
        assert (interest + [iv])[i] == interest[i];
      }
      if Within(iv, x) {
        assert (interest + [iv])[|interest|] == iv;
      }
    }
  }

  /** One bound taken at position p: coverage moves by one; an interval is
      closed at p exactly when coverage leaves the reported side, and one is
      opened at p exactly when coverage enters it. */
  lemma {:induction false} TracksStep(starts: seq<int>, ends: seq<int>, coverage: int, above: bool,
                                      interest: seq<Interval>, cvg: int, s: int, last: int,
                                      p: int, interest1: seq<Interval>, cvg1: int, s1: int)
    requires Tracks(starts, ends, coverage, above, interest, cvg, s, last)
    requires s <= last <= p
    requires forall x :: last <= x < p ==> CovAt(starts, ends, x) == cvg
    requires cvg1 == cvg + 1 || cvg1 == cvg - 1
    requires interest1 == if Meets(cvg, coverage, above) && !Meets(cvg1, coverage, above)
                          then interest + [(s, p)] else interest
    requires s1 == if !Meets(cvg, coverage, above) && Meets(cvg1, coverage, above) then p else s
    ensures Tracks(starts, ends, coverage, above, interest1, cvg1, s1, p)
  {
    var closes := Meets(cvg, coverage, above) && !Meets(cvg1, coverage, above);
    CoveredSnoc(interest, (s, p));
    if closes {
      forall i, x | 0 <= i < |interest1| && Within(interest1[i], x)
        ensures Meets(CovAt(starts, ends, x), coverage, above)
      {
        if i < |interest| {
          assert interest1[i] == interest[i];
        }
      }
    }
    forall x | 0 <= x < p && Meets(CovAt(starts, ends, x), coverage, above)
      ensures Covered(interest1, x) || (Meets(cvg1, coverage, above) && s1 <= x)
    {
      if x >= last || !Covered(interest, x) {
        assert Meets(cvg, coverage, above) && s <= x;
        if closes {
          assert Within((s, p), x);
        }
      }
    }
  }

  /** After the last bound, coverage stays cvg up to hi; in the mode below a
      final interval from s to hi completes the report. */
  lemma {:induction false} TracksFinish(starts: seq<int>, ends: seq<int>, coverage: int, above: bool,
                                        interest: seq<Interval>, cvg: int, s: int, last: int, hi: int)
    requires Tracks(starts, ends, coverage, above, interest, cvg, s, last)
    requires s <= last <= hi
    requires forall x :: last <= x < hi ==> CovAt(starts, ends, x) == cvg
    ensures Meets(cvg, coverage, above) ==> Reports(interest + [(s, hi)], starts, ends, coverage, above)
    ensures Meets(cvg, coverage, above) ==>
              forall x :: 0 <= x < hi && Meets(CovAt(starts, ends, x), coverage, above) ==> Covered(interest + [(s, hi)], x)
    ensures !Meets(cvg, coverage, above) || s == hi ==>
              forall x :: 0 <= x < hi && Meets(CovAt(starts, ends, x), coverage, above) ==> Covered(interest, x)
  {
    CoveredSnoc(interest, (s, hi));
    if Meets(cvg, coverage, above) {
      var interest1 := interest + [(s, hi)];
      forall i, x | 0 <= i < |interest1| && Within(interest1[i], x)
        ensures Meets(CovAt(starts, ends, x), coverage, above)
      {
        if i < |interest| {
          assert interest1[i] == interest[i];
        }
      }
    }
    forall x | 0 <= x < hi && Meets(CovAt(starts, ends, x), coverage, above)
      ensures Covered(interest + [(s, hi)], x)
      ensures !Meets(cvg, coverage, above) || s == hi ==> Covered(interest, x)
    {
      if x >= last || !Covered(interest, x) {
        assert Meets(cvg, coverage, above) && s <= x;
        assert Within((s, hi), x);
      }
    }
  }

  /** The state of the sweep after si starts and ei ends, last being the
      position of the bound taken last: the bounds taken lie at or before
      last and the others after it, the intervals are ordered, begin at or
      after 0 and end by last, none ends after s while coverage is on the reported side, and
      the coverage facts of Tracks hold. */
  ghost predicate Swept(starts: seq<int>, ends: seq<int>, ctglen: int, coverage: int, above: bool,
                        si: nat, ei: nat, interest: seq<Interval>, s: int, last: int)
  {
    Placed(starts, ends, ctglen, si, ei, s, last) &&
    Laid(interest, si - ei, coverage, above, s, last) &&
    Tracks(starts, ends, coverage, above, interest, si - ei, s, last)
  }

  /** The bounds taken lie at or before last and the others after it, and
      0 <= s <= last <= ctglen. */
  ghost predicate Placed(starts: seq<int>, ends: seq<int>, ctglen: int, si: nat, ei: nat, s: int, last: int)
  {
    si <= |starts| && ei <= |ends| &&
    0 <= s <= last <= ctglen &&
    (si < |starts| ==> last <= starts[si]) && (ei < |ends| ==> last <= ends[ei]) &&
    (si > 0 ==> starts[si - 1] <= last) && (ei > 0 ==> ends[ei - 1] <= last)
  }

  /** Placed is kept when the next bound in merged order is taken. */
  lemma {:induction false} PlacedStep(starts: seq<int>, ends: seq<int>, ctglen: int, si: nat, ei: nat, s: int, last: int,
                                      start: bool, si1: nat, ei1: nat, s1: int, p: int)
    requires |starts| == |ends| && Sorted(starts) && Sorted(ends)
    requires forall k :: 0 <= k < |starts| ==> starts[k] <= ends[k]
    requires Inside(starts, ends, ctglen)
    requires Placed(starts, ends, ctglen, si, ei, s, last)
    requires start ==> si < |starts| && (ei < |ends| ==> starts[si] <= ends[ei])
    requires !start ==> ei < si && (si < |starts| ==> ends[ei] < starts[si])
    requires if start then si1 == si + 1 && ei1 == ei && p == starts[si]
             else si1 == si && ei1 == ei + 1 && p == ends[ei]
    requires s1 == s || s1 == p
    ensures Placed(starts, ends, ctglen, si1, ei1, s1, p)
  {
    if start {
      assert starts[si] <= ends[si];
    }
  }

  /** The intervals reported so far are ordered, begin at or after 0 and end
      by last, and none ends after s while coverage cvg is on the reported
      side. */
  ghost predicate Laid(interest: seq<Interval>, cvg: int, coverage: int, above: bool, s: int, last: int)
  {
    Ordered(interest) && (interest != [] ==> LastEnd(interest) <= last) &&
    (forall k :: 0 <= k < |interest| ==> 0 <= interest[k].0) &&
    (interest != [] && LastEnd(interest) > s ==> !Meets(cvg, coverage, above))
  }

  /** Laid is kept by a step that closes and opens intervals as TracksStep
      describes. */
  lemma {:induction false} LaidStep(interest: seq<Interval>, cvg: int, coverage: int, above: bool, s: int, last: int,
                                    p: int, interest1: seq<Interval>, cvg1: int, s1: int)
    requires Laid(interest, cvg, coverage, above, s, last)
    requires 0 <= s <= last <= p
    requires cvg1 == cvg + 1 || cvg1 == cvg - 1
    requires interest1 == if Meets(cvg, coverage, above) && !Meets(cvg1, coverage, above)
                          then interest + [(s, p)] else interest
    requires s1 == if !Meets(cvg, coverage, above) && Meets(cvg1, coverage, above) then p else s
    ensures Laid(interest1, cvg1, coverage, above, s1, p)
  {
    if interest1 != interest {
      OrderedSnoc(interest, (s, p));
      forall k | 0 <= k < |interest1|
        ensures 0 <= interest1[k].0
      {
        if k < |interest| {
          assert interest1[k] == interest[k];
        }
      }
    }
  }

  /** Taking the next bound, a start when start holds and an end otherwise,
      keeps Swept, given that interest1 and s1 are what the loop body of
      the source makes of interest and s. */
  lemma {:induction false} SweptStep(starts: seq<int>, ends: seq<int>, ctglen: int, coverage: int, above: bool,
                                     si: nat, ei: nat, interest: seq<Interval>, s: int, last: int,
                                     start: bool, si1: nat, ei1: nat, interest1: seq<Interval>, s1: int, p: int)
    requires |starts| == |ends| && Sorted(starts) && Sorted(ends)
    requires forall k :: 0 <= k < |starts| ==> starts[k] <= ends[k]
    requires Inside(starts, ends, ctglen)
    requires Swept(starts, ends, ctglen, coverage, above, si, ei, interest, s, last)
    requires start ==> si < |starts| && (ei < |ends| ==> starts[si] <= ends[ei])
    requires !start ==> ei < si && (si < |starts| ==> ends[ei] < starts[si])
    requires if start then si1 == si + 1 && ei1 == ei && p == starts[si]
             else si1 == si && ei1 == ei + 1 && p == ends[ei]
    requires var cvg := si - ei;
             interest1 == (if (if start then !above else above) && cvg == coverage
                           then interest + [(s, p)] else interest) &&
             s1 == if (if start then above && cvg + 1 == coverage else !above && cvg - 1 == coverage) then p else s
    ensures Swept(starts, ends, ctglen, coverage, above, si1, ei1, interest1, s1, p)
  {
    var cvg1 := if start then si - ei + 1 else si - ei - 1;
    PlacedStep(starts, ends, ctglen, si, ei, s, last, start, si1, ei1, s1, p);
    CovBetween(starts, ends, si, ei, last, p);
    TracksStep(starts, ends, coverage, above, interest, si - ei, s, last, p, interest1, cvg1, s1);
    LaidStep(interest, si - ei, coverage, above, s, last, p, interest1, cvg1, s1);
  }

  /** The loop body of the sweep for a start, taken while coverage is cvg:
      in the mode below an interval closes at the start when coverage was at
      the threshold; in the mode above one opens there when coverage reaches
      it. */
  method TakeStart(starts: seq<int>, ends: seq<int>, ctglen: int, coverage: int, above: bool,
                   si: nat, ei: nat, cvg: int, interest: seq<Interval>, s: int, ghost last: int)
    returns (cvg1: int, interest1: seq<Interval>, s1: int)
    requires |starts| == |ends| && Sorted(starts) && Sorted(ends)
    requires forall k :: 0 <= k < |starts| ==> starts[k] <= ends[k]
    requires ei <= si < |starts| && ei < |ends| && starts[si] <= ends[ei] && cvg == si - ei
    requires interest != [] ==> coverage >= 0
    requires Inside(starts, ends, ctglen) ==> Swept(starts, ends, ctglen, coverage, above, si, ei, interest, s, last)
    ensures cvg1 == cvg + 1
    ensures interest1 != [] ==> coverage >= 0
    ensures Inside(starts, ends, ctglen) ==> Swept(starts, ends, ctglen, coverage, above, si + 1, ei, interest1, s1, starts[si])
  {
    interest1, s1, cvg1 := interest, s, cvg;
    if !above && cvg1 == coverage {
      var e := starts[si];
      interest1 := interest1 + [(s1, e)];
    }
    cvg1 := cvg1 + 1;
    if above && cvg1 == coverage {
      s1 := starts[si];
    }
    if Inside(starts, ends, ctglen) {
      SweptStep(starts, ends, ctglen, coverage, above, si, ei, interest, s, last, true, si + 1, ei, interest1, s1, starts[si]);
    }
  }

  /** The loop body of the sweep for an end, taken while coverage is cvg:
      in the mode above an interval closes at the end when coverage was at
      the threshold; in the mode below one opens there when coverage falls
      to it. */
  method TakeEnd(starts: seq<int>, ends: seq<int>, ctglen: int, coverage: int, above: bool,
                 si: nat, ei: nat, cvg: int, interest: seq<Interval>, s: int, ghost last: int)
    returns (cvg1: int, interest1: seq<Interval>, s1: int)
    requires |starts| == |ends| && Sorted(starts) && Sorted(ends)
    requires forall k :: 0 <= k < |starts| ==> starts[k] <= ends[k]
    requires ei < si <= |starts| && (si < |starts| ==> ends[ei] < starts[si]) && cvg == si - ei
    requires interest != [] ==> coverage >= 0
    requires Inside(starts, ends, ctglen) ==> Swept(starts, ends, ctglen, coverage, above, si, ei, interest, s, last)
    ensures cvg1 == cvg - 1
    ensures interest1 != [] ==> coverage >= 0
    ensures Inside(starts, ends, ctglen) ==> Swept(starts, ends, ctglen, coverage, above, si, ei + 1, interest1, s1, ends[ei])
  {
    interest1, s1, cvg1 := interest, s, cvg;
    if above && cvg1 == coverage {
      var e := ends[ei];
      interest1 := interest1 + [(s1, e)];
    }
    cvg1 := cvg1 - 1;
    if !above && cvg1 == coverage {
      s1 := ends[ei];
    }
    if Inside(starts, ends, ctglen) {
      SweptStep(starts, ends, ctglen, coverage, above, si, ei, interest, s, last, false, si, ei + 1, interest1, s1, ends[ei]);
    }
  }

  /** The first loop of the sweep, taking starts and ends in merged order
      until every start is taken; it returns how many ends it took. */
  method SweepBoth(starts: seq<int>, ends: seq<int>, ctglen: int, coverage: int, above: bool)
    returns (ei: nat, interest: seq<Interval>, s: int, ghost last: int)
    requires |starts| == |ends| && Sorted(starts) && Sorted(ends)
    requires forall k :: 0 <= k < |starts| ==> starts[k] <= ends[k]
    ensures ei <= |ends|
    ensures |starts| == 0 ==> ei == 0 && interest == [] && s == 0
    ensures interest != [] ==> coverage >= 0
    ensures Inside(starts, ends, ctglen) ==> Swept(starts, ends, ctglen, coverage, above, |starts|, ei, interest, s, last)
  {
    interest := [];
    var n := |starts|;
    ghost var inside := Inside(starts, ends, ctglen);
    var si := 0;
    ei := 0;
    var cvg := 0;
    s, last := 0, 0;
    while si < n && ei < n
      invariant 0 <= ei <= si <= n
      invariant cvg == si - ei
      invariant si == 0 && ei == 0 ==> interest == [] && s == 0
      invariant interest != [] ==> coverage >= 0
      invariant inside ==> Swept(starts, ends, ctglen, coverage, above, si, ei, interest, s, last)
    {
      if starts[si] <= ends[ei] {
        cvg, interest, s := TakeStart(starts, ends, ctglen, coverage, above, si, ei, cvg, interest, s, last);
        last := starts[si];
        si := si + 1;
      } else {
        // starts[si] > ends[ei] with si == ei would break starts[k] <= ends[k]
        assert si != ei;
        cvg, interest, s := TakeEnd(starts, ends, ctglen, coverage, above, si, ei, cvg, interest, s, last);
        last := ends[ei];
        ei := ei + 1;
      }
    }

    // the first loop ends with every start consumed
    assert si == n;
  }

  /** The second loop of the sweep: with every start taken, the ends left
      from ei on bring coverage down to zero. */
  method SweepEnds(starts: seq<int>, ends: seq<int>, ctglen: int, coverage: int, above: bool,
                   ei: nat, interest0: seq<Interval>, s0: int, ghost last0: int)
    returns (interest: seq<Interval>, s: int, ghost last: int)
    requires |starts| == |ends| && Sorted(starts) && Sorted(ends) && ei <= |ends|
    requires forall k :: 0 <= k < |starts| ==> starts[k] <= ends[k]
    requires |starts| == 0 ==> ei == 0 && interest0 == [] && s0 == 0
    requires interest0 != [] ==> coverage >= 0
    requires Inside(starts, ends, ctglen) ==> Swept(starts, ends, ctglen, coverage, above, |starts|, ei, interest0, s0, last0)
    ensures |starts| == 0 ==> interest == [] && s == 0
    ensures interest != [] ==> coverage >= 0
    ensures Inside(starts, ends, ctglen) ==> Swept(starts, ends, ctglen, coverage, above, |starts|, |ends|, interest, s, last)
  {
    var n := |starts|;
    ghost var inside := Inside(starts, ends, ctglen);
    var i := ei;
    var cvg := n - ei;
    interest, s, last := interest0, s0, last0;
    while i < n
      invariant ei <= i <= n
      invariant cvg == n - i
      invariant n == 0 ==> interest == [] && s == 0
      invariant interest != [] ==> coverage >= 0
      invariant inside ==> Swept(starts, ends, ctglen, coverage, above, n, i, interest, s, last)
    {
      cvg, interest, s := TakeEnd(starts, ends, ctglen, coverage, above, n, i, cvg, interest, s, last);
      last := ends[i];
      i := i + 1;
    }
    assert cvg == 0;
  }

  /** The sweep of getCvg over the sorted starts and sorted ends: coverage
      goes up at each start and down at each end, a start first when they
      meet, and never below zero since the k-th start is no later than the
      k-th end. In the mode below coverage a last interval runs to ctglen. */
  method Sweep(starts: seq<int>, ends: seq<int>, ctglen: int, coverage: int, above: bool) returns (interest: seq<Interval>)
    requires |starts| == |ends| && Sorted(starts) && Sorted(ends)
    requires forall k :: 0 <= k < |starts| ==> starts[k] <= ends[k]
    ensures |starts| == 0 && above ==> interest == []
    ensures |starts| == 0 && !above ==> interest == if ctglen != 0 then [(0, ctglen)] else []
    ensures Inside(starts, ends, ctglen) ==> Ordered(interest)
    ensures Inside(starts, ends, ctglen) && !above && interest != [] ==> LastEnd(interest) <= ctglen
    ensures Inside(starts, ends, ctglen) ==>
              forall k :: 0 <= k < |interest| ==> 0 <= interest[k].0 && interest[k].1 <= ctglen
    ensures Inside(starts, ends, ctglen) && (above || coverage >= 0) ==> Reports(interest, starts, ends, coverage, above)
    ensures Inside(starts, ends, ctglen) && (if above then coverage >= 1 else coverage >= 0) ==>
              forall x :: 0 <= x < ctglen && Meets(CovAt(starts, ends, x), coverage, above) ==> Covered(interest, x)
  {
    var ei, s;
    ghost var last;
    ei, interest, s, last := SweepBoth(starts, ends, ctglen, coverage, above);
    var n := |starts|;
    ghost var inside := Inside(starts, ends, ctglen);
    interest, s, last := SweepEnds(starts, ends, ctglen, coverage, above, ei, interest, s, last);

    if inside {
      CovBetween(starts, ends, n, n, last, ctglen);
      TracksFinish(starts, ends, coverage, above, interest, 0, s, last, ctglen);
    }
    if !above && s != ctglen {
      if inside { OrderedSnoc(interest, (s, ctglen)); }
      interest := interest + [(s, ctglen)];
    }
  }
}
