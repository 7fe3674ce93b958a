/**
 * The layout decision of `download` and `_planDualColumnLayout`
 * (js/pdf.js), and the file name the leaflet is saved under. Heights are
 * exact millimetres: each block's full-width height `heights[i]` and its
 * half-width height `half[i]` are given, standing for the rendering.
 */
module PdfLayout {
  import opened Wrappers
  import opened JsText
  import opened PdfPairs
  import opened PdfPlan

  /** The A4 page height and its top and bottom margins, in millimetres. */
  const PageHeight: real := 297.0
  const MarginTop: real := 15.0
  const MarginBottom: real := 18.0

  /** `USABLE_H`: the height between the margins, 264 mm. */
  const UsableH: real := PageHeight - MarginTop - MarginBottom

  /** `spaceAfterHeader`: what page 1 has left below a header of height `headerH` and its 2 mm gap. */
  function SpaceAfterHeader(headerH: real): (space: real)
    ensures space == UsableH - headerH - 2.0
  {
    var currentY := MarginTop + headerH + 2.0;
    UsableH - (currentY - MarginTop)
  }

  /** One full-width row per block, in order. */
  function Singles(n: nat): (plan: seq<Item>)
    ensures |plan| == n
    ensures forall k :: 0 <= k < n ==> plan[k] == Single(k)
  {
    seq(n, k requires 0 <= k < n => Single(k))
  }

  // ---------------------------------------------------------------------
  // Candidate pairs
  // ---------------------------------------------------------------------

  /**
   * The loop over `i` below `k` that collects `[i, i + 1]` when both blocks
   * are at most `threshold` high and the pair is not in `excluded`.
   */
  function ShortPairs(heights: seq<real>, threshold: real, excluded: set<(nat, nat)>, k: nat): seq<(nat, nat)> {
    if k == 0 then []
    else
      var i := k - 1;
      ShortPairs(heights, threshold, excluded, i) +
        (if k < |heights| && heights[i] <= threshold && heights[k] <= threshold && (i, k) !in excluded
         then [(i, k)] else [])
  }

  /** Both blocks of `p` exist, follow each other and are at most `threshold` high. */
  predicate ShortNeighbours(p: (nat, nat), heights: seq<real>, threshold: real) {
    p.1 == p.0 + 1 && p.1 < |heights| && heights[p.0] <= threshold && heights[p.1] <= threshold
  }

  /**
   * The candidates are exactly the short neighbours not excluded with a
   * first block below `k`, listed by first block.
   */
  lemma {:induction false} ShortPairsFacts(heights: seq<real>, threshold: real, excluded: set<(nat, nat)>, k: nat)
    ensures forall p: (nat, nat) :: p in ShortPairs(heights, threshold, excluded, k) <==>
              ShortNeighbours(p, heights, threshold) && p.0 < k && p !in excluded
    ensures forall a, b :: 0 <= a < b < |ShortPairs(heights, threshold, excluded, k)| ==>
              ShortPairs(heights, threshold, excluded, k)[a].0 < ShortPairs(heights, threshold, excluded, k)[b].0
  {
    if k > 0 {
      ShortPairsFacts(heights, threshold, excluded, k - 1);
      var prev := ShortPairs(heights, threshold, excluded, k - 1);
      var all := ShortPairs(heights, threshold, excluded, k);
      forall a, b | 0 <= a < b < |all| ensures all[a].0 < all[b].0 {
        if b < |prev| {
          assert all[a] == prev[a] && all[b] == prev[b];
        } else {
          assert all[a] == prev[a] && prev[a] in prev;
        }
      }
    }
  }

  /** The candidates name existing blocks. */
  lemma ShortPairsInBounds(heights: seq<real>, threshold: real, excluded: set<(nat, nat)>, k: nat)
    ensures PairsInBounds(ShortPairs(heights, threshold, excluded, k), |heights|)
  {
    ShortPairsFacts(heights, threshold, excluded, k);
    var pairs := ShortPairs(heights, threshold, excluded, k);
    forall j | 0 <= j < |pairs| ensures pairs[j].0 < |heights| && pairs[j].1 < |heights| {
      assert pairs[j] in pairs;
    }
  }

  // ---------------------------------------------------------------------
  // The two-column planner
  // ---------------------------------------------------------------------

  /** `SHORT_THRESHOLD`: a block at most 40% of a full page high is short. */
  function ShortThreshold(fullPageSpace: real): real {
    fullPageSpace * 0.40
  }

  /** `AGGRESSIVE_THRESHOLD`: the escalation pairs blocks at most 55% of a full page high. */
  function AggressiveThreshold(fullPageSpace: real): real {
    fullPageSpace * 0.55
  }

  /**
   * The measurements after the escalation: those of `candidates`, then
   * those of the neighbours both at most 55% of a page high that are not
   * candidates already, when there are any.
   */
  function Escalated(heights: seq<real>, half: seq<real>, candidates: seq<(nat, nat)>, fullPageSpace: real): seq<Measurement>
    requires |half| == |heights| && PairsInBounds(candidates, |heights|)
  {
    var measuredKeys := set p | p in candidates;
    var aggressive := ShortPairs(heights, AggressiveThreshold(fullPageSpace), measuredKeys, |heights|);
    ShortPairsInBounds(heights, AggressiveThreshold(fullPageSpace), measuredKeys, |heights|);
    var measured := MeasureAll(candidates, heights, half);
    if aggressive != [] then measured + MeasureAll(aggressive, heights, half) else measured
  }

  /** What `_planDualColumnLayout` returns. */
  function PlanDual(heights: seq<real>, half: seq<real>, firstPageSpace: real, fullPageSpace: real): seq<Item>
    requires |half| == |heights|
  {
    var n := |heights|;
    var candidates := ShortPairs(heights, ShortThreshold(fullPageSpace), {}, n);
    if candidates == [] then Singles(n)
    else
      ShortPairsInBounds(heights, ShortThreshold(fullPageSpace), {}, n);
      var selected := SelectBest(MeasureAll(candidates, heights, half));
      if Simulate(heights, selected, firstPageSpace, fullPageSpace) > 2
      then BuildPlan(n, SelectBest(Escalated(heights, half, candidates, fullPageSpace)))
      else BuildPlan(n, selected)
  }

  /** The loop ends with the last block, which has no right neighbour. */
  lemma ShortPairsEnd(heights: seq<real>, threshold: real, excluded: set<(nat, nat)>, i: nat)
    requires i <= |heights| <= i + 1
    ensures ShortPairs(heights, threshold, excluded, i) == ShortPairs(heights, threshold, excluded, |heights|)
  {
  }

  /** One more step of the candidate loop. */
  lemma ShortPairsStep(heights: seq<real>, threshold: real, excluded: set<(nat, nat)>, i: nat)
    requires i + 1 < |heights|
    ensures ShortPairs(heights, threshold, excluded, i + 1) == ShortPairs(heights, threshold, excluded, i) +
              (if heights[i] <= threshold && heights[i + 1] <= threshold && (i, i + 1) !in excluded then [(i, i + 1)] else [])
  {
  }

  /**
   * The two candidate loops of `_planDualColumnLayout`: each `[i, i + 1]`
   * whose blocks are both at most `threshold` high and which is not in
   * `excluded`, by ascending `i`.
   */
  method CollectShortPairs(heights: seq<real>, threshold: real, excluded: set<(nat, nat)>)
    returns (pairs: seq<(nat, nat)>)
    ensures pairs == ShortPairs(heights, threshold, excluded, |heights|)
  {
    var n := |heights|;
    var isShort := seq(n, i requires 0 <= i < n => heights[i] <= threshold);
    pairs := [];
    var i := 0;
    while i + 1 < n
      invariant i <= n
      invariant pairs == ShortPairs(heights, threshold, excluded, i)
    {
      ShortPairsStep(heights, threshold, excluded, i);
      if isShort[i] && isShort[i + 1] {
        var key := (i, i + 1);
        if key !in excluded {
          pairs := pairs + [key];
        }
      }
      i := i + 1;
    }
    ShortPairsEnd(heights, threshold, excluded, i);
  }

  /**
   * `_planDualColumnLayout`: candidate pairs of short neighbours, their
   * measurement, the greedy selection and its simulation, one escalation
   * to the larger threshold when more than two pages are needed, and the
   * plan.
   */
  method PlanDualColumnLayout(heights: seq<real>, half: seq<real>, firstPageSpace: real, fullPageSpace: real)
    returns (plan: seq<Item>)
    requires |half| == |heights|
    ensures plan == PlanDual(heights, half, firstPageSpace, fullPageSpace)
  {
    var n := |heights|;
    var candidatePairs := CollectShortPairs(heights, ShortThreshold(fullPageSpace), {});
    if |candidatePairs| == 0 {
      return Singles(n);
    }
    ShortPairsInBounds(heights, ShortThreshold(fullPageSpace), {}, n);
    var pairMeasurements := MeasurePairs(candidatePairs, heights, half);
    var selectedPairs := SelectBestPairs(pairMeasurements);
    var pages := SimulateLayout(heights, selectedPairs, firstPageSpace, fullPageSpace);
    if pages > 2 {
      var measuredKeys := set p | p in candidatePairs;
      var aggressivePairs := CollectShortPairs(heights, AggressiveThreshold(fullPageSpace), measuredKeys);
      if |aggressivePairs| > 0 {
        ShortPairsInBounds(heights, AggressiveThreshold(fullPageSpace), measuredKeys, n);
        var moreMeasurements := MeasurePairs(aggressivePairs, heights, half);
        pairMeasurements := pairMeasurements + moreMeasurements;
      }
      selectedPairs := SelectBestPairs(pairMeasurements);
      pages := SimulateLayout(heights, selectedPairs, firstPageSpace, fullPageSpace);
    }
    plan := BuildPlanFromPairs(n, selectedPairs);
  }

  /** Every measurement is of a short neighbour pair. */
  predicate MeasuredShort(ms: seq<Measurement>, heights: seq<real>, threshold: real) {
    forall m :: m in ms ==> ShortNeighbours((m.first, m.second), heights, threshold)
  }

  /** Measuring candidates keeps their blocks. */
  lemma MeasureShortPairs(heights: seq<real>, half: seq<real>, threshold: real, excluded: set<(nat, nat)>, bound: real)
    requires |half| == |heights| && threshold <= bound
    ensures PairsInBounds(ShortPairs(heights, threshold, excluded, |heights|), |heights|)
    ensures MeasuredShort(MeasureAll(ShortPairs(heights, threshold, excluded, |heights|), heights, half), heights, bound)
  {
    var pairs := ShortPairs(heights, threshold, excluded, |heights|);
    ShortPairsFacts(heights, threshold, excluded, |heights|);
    ShortPairsInBounds(heights, threshold, excluded, |heights|);
    var ms := MeasureAll(pairs, heights, half);
    forall m | m in ms ensures ShortNeighbours((m.first, m.second), heights, bound) {
      var k :| 0 <= k < |ms| && ms[k] == m;
      assert pairs[k] in pairs;
    }
  }

  /** The greedy selection from short neighbour pairs is disjoint neighbour pairs. */
  lemma SelectFromShort(ms: seq<Measurement>, heights: seq<real>, threshold: real)
    requires MeasuredShort(ms, heights, threshold)
    ensures Disjoint(SelectBest(ms)) && Adjacent(SelectBest(ms), |heights|)
    ensures MeasuredShort(SelectBest(ms), heights, threshold)
  {
    SelectBestFacts(ms);
    forall m | m in SelectBest(ms) ensures m in ms {
      assert m in multiset(SelectBest(ms));
    }
  }

  /** A plan from short neighbour pairs covers the blocks in order, its pair rows being short neighbours. */
  lemma PlanFromShort(heights: seq<real>, ms: seq<Measurement>, threshold: real)
    requires MeasuredShort(ms, heights, threshold)
    ensures Flatten(BuildPlan(|heights|, SelectBest(ms))) == Range(0, |heights|)
    ensures forall l, r :: Pair(l, r) in BuildPlan(|heights|, SelectBest(ms)) ==> ShortNeighbours((l, r), heights, threshold)
  {
    var n := |heights|;
    var selected := SelectBest(ms);
    SelectFromShort(ms, heights, threshold);
    BuildPlanFacts(n, selected);
    forall l, r | Pair(l, r) in BuildPlan(n, selected) ensures ShortNeighbours((l, r), heights, threshold) {
      BuildPlanPairs(n, selected, l, r);
    }
  }

  /** A plan of full-width rows covers the blocks in order. */
  lemma {:induction false} SinglesCover(i: nat, n: nat)
    requires i <= n
    ensures Flatten(Singles(n)[i..]) == Range(i, n)
    decreases n - i
  {
    if i < n {
      SinglesCover(i + 1, n);
      assert Singles(n)[i..] == [Single(i)] + Singles(n)[i + 1..];
      FlattenCons(Single(i), Singles(n)[i + 1..]);
    }
  }

  /**
   * `_planDualColumnLayout` keeps every block exactly once and in order,
   * and pairs only neighbours that are both at most 55% of a page high;
   * without a candidate pair every block is on its own row.
   */
  lemma PlanDualFacts(heights: seq<real>, half: seq<real>, firstPageSpace: real, fullPageSpace: real)
    requires |half| == |heights| && fullPageSpace >= 0.0
    ensures Flatten(PlanDual(heights, half, firstPageSpace, fullPageSpace)) == Range(0, |heights|)
    ensures forall l, r :: Pair(l, r) in PlanDual(heights, half, firstPageSpace, fullPageSpace) ==>
              ShortNeighbours((l, r), heights, AggressiveThreshold(fullPageSpace))
    ensures ShortPairs(heights, ShortThreshold(fullPageSpace), {}, |heights|) == [] ==>
              PlanDual(heights, half, firstPageSpace, fullPageSpace) == Singles(|heights|)
  {
    var n := |heights|;
    var loose := AggressiveThreshold(fullPageSpace);
    var candidates := ShortPairs(heights, ShortThreshold(fullPageSpace), {}, n);
    if candidates == [] {
      SinglesCover(0, n);
      assert Singles(n)[0..] == Singles(n);
    } else {
      MeasureShortPairs(heights, half, ShortThreshold(fullPageSpace), {}, loose);
      var measured := MeasureAll(candidates, heights, half);
      var selected := SelectBest(measured);
      if Simulate(heights, selected, firstPageSpace, fullPageSpace) > 2 {
        var measuredKeys := set p | p in candidates;
        var aggressive := ShortPairs(heights, loose, measuredKeys, n);
        MeasureShortPairs(heights, half, loose, measuredKeys, loose);
        var pool := Escalated(heights, half, candidates, fullPageSpace);
        assert MeasuredShort(pool, heights, loose);
        PlanFromShort(heights, pool, loose);
      } else {
        PlanFromShort(heights, measured, loose);
      }
    }
  }

  /**
   * The escalation adds only neighbour pairs of blocks at most 55% of a
   * page high that the first pass did not already take.
   */
  lemma EscalationAddsNewPairs(heights: seq<real>, fullPageSpace: real, p: (nat, nat))
    ensures var candidates := ShortPairs(heights, ShortThreshold(fullPageSpace), {}, |heights|);
            p in ShortPairs(heights, AggressiveThreshold(fullPageSpace), set q | q in candidates, |heights|) <==>
              ShortNeighbours(p, heights, AggressiveThreshold(fullPageSpace)) && p !in candidates
  {
    var candidates := ShortPairs(heights, ShortThreshold(fullPageSpace), {}, |heights|);
    ShortPairsFacts(heights, AggressiveThreshold(fullPageSpace), set q | q in candidates, |heights|);
  }

  // ---------------------------------------------------------------------
  // The decision in `download`
  // ---------------------------------------------------------------------

  /** `fitsInTwoPages`: the blocks together are no higher than what is left on page 1 and one more page. */
  predicate FitsInTwoPages(heights: seq<real>, headerH: real) {
    Sum(heights) <= SpaceAfterHeader(headerH) + UsableH
  }

  /** The layout plan `download` renders. */
  function PlanLayout(heights: seq<real>, half: seq<real>, headerH: real): seq<Item>
    requires |half| == |heights|
  {
    if FitsInTwoPages(heights, headerH) then Singles(|heights|)
    else PlanDual(heights, half, SpaceAfterHeader(headerH), UsableH)
  }

  /**
   * Whatever the heights, the plan lists every block exactly once and in
   * order, pairs only neighbours both at most 55% of a page high, and is
   * one row per block when the fit test passes.
   */
  lemma PlanLayoutFacts(heights: seq<real>, half: seq<real>, headerH: real)
    requires |half| == |heights|
    ensures Flatten(PlanLayout(heights, half, headerH)) == Range(0, |heights|)
    ensures forall l, r :: Pair(l, r) in PlanLayout(heights, half, headerH) ==>
              ShortNeighbours((l, r), heights, AggressiveThreshold(UsableH))
    ensures FitsInTwoPages(heights, headerH) ==> PlanLayout(heights, half, headerH) == Singles(|heights|)
  {
    if FitsInTwoPages(heights, headerH) {
      SinglesCover(0, |heights|);
      assert Singles(|heights|)[0..] == Singles(|heights|);
    } else {
      PlanDualFacts(heights, half, SpaceAfterHeader(headerH), UsableH);
    }
  }

  /** Without pairs the walk gives one row per block. */
  lemma {:induction false} PlanFromNoPairs(n: nat, i: nat)
    requires i <= n
    ensures PlanFrom(n, {}, map[], i) == Singles(n)[i..]
    decreases n - i
  {
    if i < n {
      PlanFromNoPairs(n, i + 1);
      assert Singles(n)[i..] == [Single(i)] + Singles(n)[i + 1..];
    }
  }

  /** Full-width rows are as high as their blocks. */
  lemma {:induction false} SinglesRowHeights(heights: seq<real>, i: nat)
    requires i <= |heights|
    ensures RowsKnown(Singles(|heights|)[i..], heights, map[])
    ensures RowHeights(Singles(|heights|)[i..], heights, map[]) == heights[i..]
    decreases |heights| - i
  {
    var n := |heights|;
    if i < n {
      SinglesRowHeights(heights, i + 1);
      assert Singles(n)[i..] == [Single(i)] + Singles(n)[i + 1..];
      assert Singles(n)[i..][1..] == Singles(n)[i + 1..];
      assert heights[i..] == [heights[i]] + heights[i + 1..];
    }
  }

  /** The simulation without pairs counts the pages of the blocks' own heights. */
  lemma SimulateSingles(heights: seq<real>, firstPageSpace: real, fullPageSpace: real)
    ensures Simulate(heights, [], firstPageSpace, fullPageSpace) == PagesFor(heights, fullPageSpace - firstPageSpace, 1, fullPageSpace)
  {
    PlanFromNoPairs(|heights|, 0);
    SinglesRowHeights(heights, 0);
    assert Singles(|heights|)[0..] == Singles(|heights|);
    assert heights[0..] == heights;
  }

  /**
   * The fit test is necessary: when no block is taller than a page and the
   * full-width rows take at most two pages, the test passes.
   */
  lemma FitTestNecessary(heights: seq<real>, headerH: real)
    requires forall k :: 0 <= k < |heights| ==> 0.0 <= heights[k] <= UsableH
    requires 0.0 <= headerH && headerH + 2.0 <= UsableH
    requires Simulate(heights, [], SpaceAfterHeader(headerH), UsableH) <= 2
    ensures FitsInTwoPages(heights, headerH)
  {
    var space := SpaceAfterHeader(headerH);
    SimulateSingles(heights, space, UsableH);
    PagesForCapacity(heights, UsableH - space, 1, UsableH);
    var pages := PagesFor(heights, UsableH - space, 1, UsableH);
    assert UsableH * (pages as real) <= UsableH * 2.0;
  }

  /**
   * The fit test is not sufficient: below a 40 mm header, blocks of 200,
   * 100 and 180 mm pass it, yet full-width rows need three pages, since the
   * 100 mm block does not fit under the first one.
   */
  lemma FitTestNotSufficient()
    ensures FitsInTwoPages([200.0, 100.0, 180.0], 40.0)
    ensures Simulate([200.0, 100.0, 180.0], [], SpaceAfterHeader(40.0), UsableH) == 3
  {
    var heights := [200.0, 100.0, 180.0];
    assert Sum(heights) == 480.0 by {
      assert heights[1..] == [100.0, 180.0];
      assert heights[1..][1..] == [180.0];
    }
    SimulateSingles(heights, SpaceAfterHeader(40.0), UsableH);
    assert UsableH == 264.0 && UsableH - SpaceAfterHeader(40.0) == 42.0;
    calc {
      PagesFor(heights, 42.0, 1, 264.0);
      PagesFor([100.0, 180.0], 242.0, 1, 264.0);
      { assert [100.0, 180.0][1..] == [180.0]; }
      PagesFor([180.0], 100.0, 2, 264.0);
      { assert [180.0][1..] == []; }
      PagesFor([], 180.0, 3, 264.0);
    }
  }

  // ---------------------------------------------------------------------
  // The file name
  // ---------------------------------------------------------------------

  /** The characters the file name keeps: ASCII letters and digits, and `áéíóúñÁÉÍÓÚÑ`. */
  predicate IsNameChar(c: char) {
    || ('a' <= c <= 'z') || ('A' <= c <= 'Z') || ('0' <= c <= '9')
    || c == '\U{E1}' || c == '\U{E9}' || c == '\U{ED}' || c == '\U{F3}' || c == '\U{FA}' || c == '\U{F1}'
    || c == '\U{C1}' || c == '\U{C9}' || c == '\U{CD}' || c == '\U{D3}' || c == '\U{DA}' || c == '\U{D1}'
  }

  /**
   * The replacement of every other character by `_`. The pattern has no
   * `u` flag, so it works on UTF-16 code units: a character outside the
   * Basic Multilingual Plane is two units and becomes `__`.
   */
  function Sanitize(s: string): string {
    if s == [] then []
    else (if IsNameChar(s[0]) then [s[0]] else if s[0] as int > 0xFFFF then "__" else "_") + Sanitize(s[1..])
  }

  /**
   * The sanitised text has the same JavaScript length as the original,
   * holds only kept characters and `_`, and is the original exactly when
   * every character is kept or is `_` already.
   */
  lemma {:induction false} SanitizeFacts(s: string)
    ensures Utf16Length(Sanitize(s)) == Utf16Length(s) == |Sanitize(s)|
    ensures forall i :: 0 <= i < |Sanitize(s)| ==> IsNameChar(Sanitize(s)[i]) || Sanitize(s)[i] == '_'
    ensures Sanitize(s) == s <==> forall i :: 0 <= i < |s| ==> IsNameChar(s[i]) || s[i] == '_'
  {
    if s != [] {
      SanitizeFacts(s[1..]);
      var head := if IsNameChar(s[0]) then [s[0]] else if s[0] as int > 0xFFFF then "__" else "_";
      var rest := Sanitize(s[1..]);
      assert Sanitize(s) == head + rest;
      Utf16LengthAppend(head, rest);
      assert forall i :: 1 <= i < |s| ==> s[i] == s[1..][i - 1];
      if Sanitize(s) == s {
        assert head[0] == s[0];
        assert |head| == 1;
        assert rest == s[1..];
      }
    }
  }

  /** Without characters outside the Basic Multilingual Plane, each character is kept or becomes one `_`. */
  lemma {:induction false} SanitizeBasicPlane(s: string)
    requires forall i :: 0 <= i < |s| ==> s[i] as int <= 0xFFFF
    ensures |Sanitize(s)| == |s|
    ensures forall i :: 0 <= i < |s| ==> Sanitize(s)[i] == if IsNameChar(s[i]) then s[i] else '_'
  {
    if s != [] {
      SanitizeBasicPlane(s[1..]);
      assert forall i :: 1 <= i < |s| ==> s[i] == s[1..][i - 1];
    }
  }

  /** Sanitising twice is sanitising once. */
  lemma SanitizeIdempotent(s: string)
    ensures Sanitize(Sanitize(s)) == Sanitize(s)
  {
    SanitizeFacts(s);
    SanitizeFacts(Sanitize(s));
  }

  lemma {:induction false} Utf16LengthAppend(a: string, b: string)
    ensures Utf16Length(a + b) == Utf16Length(a) + Utf16Length(b)
  {
    if a != [] {
      Utf16LengthAppend(a[1..], b);
      assert (a + b)[1..] == a[1..] + b;
    } else {
      assert a + b == b;
    }
  }

  /** `'hoja_' + (principio_activo || 'medicamento').replace(…, '_') + '.pdf'`. */
  function FileName(principioActivo: Option<string>): (name: string)
    ensures |name| >= 9 && name[..5] == "hoja_" && name[|name| - 4..] == ".pdf"
  {
    var base := if principioActivo.None? || principioActivo.value == [] then "medicamento" else principioActivo.value;
    Affixes("hoja_", Sanitize(base), ".pdf");
    "hoja_" + Sanitize(base) + ".pdf"
  }

  /** The three parts of a concatenation can be read back by position. */
  lemma Affixes(prefix: string, middle: string, suffix: string)
    ensures (prefix + middle + suffix)[..|prefix|] == prefix
    ensures (prefix + middle + suffix)[|prefix|..|prefix| + |middle|] == middle
    ensures (prefix + middle + suffix)[|prefix| + |middle|..] == suffix
  {
  }

  /**
   * The middle of the file name is the sanitised active ingredient, or
   * `medicamento` when there is none, of the same JavaScript length.
   */
  lemma FileNameMiddle(principioActivo: Option<string>)
    ensures var base := if principioActivo.None? || principioActivo.value == [] then "medicamento" else principioActivo.value;
            var name := FileName(principioActivo);
            name[5..|name| - 4] == Sanitize(base) && |name| == 9 + Utf16Length(base)
  {
    var base := if principioActivo.None? || principioActivo.value == [] then "medicamento" else principioActivo.value;
    SanitizeFacts(base);
    Affixes("hoja_", Sanitize(base), ".pdf");
  }
}
