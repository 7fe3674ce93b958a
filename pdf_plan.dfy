/**
 * The walk over the blocks that `_buildPlanFromPairs` and `_simulateLayout`
 * (js/pdf.js) share: a block that begins a selected pair is placed with
 * the next one in a two-column row, a block that ends one is skipped, and
 * any other block gets a full-width row. The plan is that walk's output;
 * the simulation counts the pages of the same walk.
 */
module PdfPlan {
  import opened PdfPairs

  /** A row of the layout plan: `{type: 'single', indices: [i]}` or `{type: 'pair', indices: [i, j]}`. */
  datatype Item = Single(index: nat) | Pair(left: nat, right: nat)

  /** `pairMap`: each selected pair under its first block, a later one replacing an earlier one. */
  function PairMap(selected: seq<Measurement>): map<nat, Measurement> {
    if selected == [] then map[]
    else
      var last := selected[|selected| - 1];
      PairMap(selected[..|selected| - 1])[last.first := last]
  }

  /** A block is a key of `pairMap` exactly when a selected pair begins with it, and maps to such a pair. */
  lemma {:induction false} PairMapMembers(selected: seq<Measurement>, x: nat)
    ensures x in PairMap(selected) <==> exists m :: m in selected && m.first == x
    ensures x in PairMap(selected) ==> PairMap(selected)[x] in selected && PairMap(selected)[x].first == x
  {
    if selected != [] {
      var init := selected[..|selected| - 1];
      PairMapMembers(init, x);
      assert selected == init + [selected[|selected| - 1]];
    }
  }

  /**
   * The walk from block `i` of `n`: the rows it emits, in order. A pair row
   * always names `i` and `i + 1`, whatever the second block of the pair
   * stored under `i`.
   */
  function PlanFrom(n: nat, paired: set<nat>, pairMap: map<nat, Measurement>, i: nat): seq<Item>
    decreases n - i
  {
    if i >= n then []
    else if i in paired && i in pairMap then [Pair(i, i + 1)] + PlanFrom(n, paired, pairMap, i + 2)
    else if i in paired then PlanFrom(n, paired, pairMap, i + 1)
    else [Single(i)] + PlanFrom(n, paired, pairMap, i + 1)
  }

  /**
   * The rows of a walk from `i` over `n` blocks: a single row names an
   * untaken block, a pair row a block under which a pair is stored and the
   * block after it.
   */
  predicate WellPlaced(plan: seq<Item>, i: nat, n: nat, paired: set<nat>, pairMap: map<nat, Measurement>) {
    forall k :: 0 <= k < |plan| ==>
      match plan[k]
      case Single(j) => i <= j < n && j !in paired
      case Pair(l, r) => i <= l < n && l in paired && l in pairMap && r == l + 1
  }

  lemma {:induction false} PlanFromWellPlaced(n: nat, paired: set<nat>, pairMap: map<nat, Measurement>, i: nat)
    ensures WellPlaced(PlanFrom(n, paired, pairMap, i), i, n, paired, pairMap)
    decreases n - i
  {
    if i < n {
      if i in paired && i in pairMap {
        PlanFromWellPlaced(n, paired, pairMap, i + 2);
      } else {
        PlanFromWellPlaced(n, paired, pairMap, i + 1);
      }
    }
  }

  /** One step of the walk. */
  lemma PlanStep(n: nat, paired: set<nat>, pairMap: map<nat, Measurement>, i: nat)
    requires i < n
    ensures PlanFrom(n, paired, pairMap, i) ==
              if i in paired && i in pairMap then [Pair(i, i + 1)] + PlanFrom(n, paired, pairMap, i + 2)
              else if i in paired then PlanFrom(n, paired, pairMap, i + 1)
              else [Single(i)] + PlanFrom(n, paired, pairMap, i + 1)
  {
  }

  /** One more selected pair claims its two blocks and is stored under its first. */
  lemma IndexStep(selected: seq<Measurement>, k: nat)
    requires k < |selected|
    ensures Claimed(selected[..k + 1]) == Claimed(selected[..k]) + {selected[k].first} + {selected[k].second}
    ensures PairMap(selected[..k + 1]) == PairMap(selected[..k])[selected[k].first := selected[k]]
  {
    assert selected[..k + 1][..k] == selected[..k];
  }

  /** The plan `_buildPlanFromPairs` returns for `n` blocks and the selected pairs. */
  function BuildPlan(n: nat, selected: seq<Measurement>): seq<Item> {
    PlanFrom(n, Claimed(selected), PairMap(selected), 0)
  }

  /** `_buildPlanFromPairs`: the `pairedSet` and `pairMap` loop, then the walk. */
  method BuildPlanFromPairs(n: nat, selectedPairs: seq<Measurement>) returns (plan: seq<Item>)
    ensures plan == BuildPlan(n, selectedPairs)
  {
    var pairedSet: set<nat>, pairMap: map<nat, Measurement> := {}, map[];
    for k := 0 to |selectedPairs|
      invariant pairedSet == Claimed(selectedPairs[..k])
      invariant pairMap == PairMap(selectedPairs[..k])
    {
      var p := selectedPairs[k];
      IndexStep(selectedPairs, k);
      pairedSet := pairedSet + {p.first};
      pairedSet := pairedSet + {p.second};
      pairMap := pairMap[p.first := p];
    }
    assert selectedPairs[..|selectedPairs|] == selectedPairs;
    plan := [];
    var i := 0;
    while i < n
      invariant plan + PlanFrom(n, pairedSet, pairMap, i) == BuildPlan(n, selectedPairs)
      decreases n - i
    {
      PlanStep(n, pairedSet, pairMap, i);
      if i in pairedSet && i in pairMap {
        assert plan + [Pair(i, i + 1)] + PlanFrom(n, pairedSet, pairMap, i + 2)
            == plan + ([Pair(i, i + 1)] + PlanFrom(n, pairedSet, pairMap, i + 2));
        plan := plan + [Pair(i, i + 1)];
        i := i + 2;
      } else if i in pairedSet {
        i := i + 1;
      } else {
        assert plan + [Single(i)] + PlanFrom(n, pairedSet, pairMap, i + 1)
            == plan + ([Single(i)] + PlanFrom(n, pairedSet, pairMap, i + 1));
        plan := plan + [Single(i)];
        i := i + 1;
      }
    }
  }

  // ---------------------------------------------------------------------
  // The plan covers every block once, in order
  // ---------------------------------------------------------------------

  /** The block indices of the rows, in order. */
  function Flatten(plan: seq<Item>): seq<nat> {
    if plan == [] then []
    else (match plan[0] case Single(i) => [i] case Pair(l, r) => [l, r]) + Flatten(plan[1..])
  }

  /** Flattening a row in front puts its blocks in front. */
  lemma FlattenCons(item: Item, rest: seq<Item>)
    ensures Flatten([item] + rest) == (match item case Single(i) => [i] case Pair(l, r) => [l, r]) + Flatten(rest)
  {
    assert ([item] + rest)[1..] == rest;
  }

  /** `a, a + 1, ..., n - 1`. */
  function Range(a: nat, n: nat): (r: seq<nat>)
    ensures |r| == if a < n then n - a else 0
    ensures forall k :: 0 <= k < |r| ==> r[k] == a + k
    decreases n - a
  {
    if a >= n then [] else [a] + Range(a + 1, n)
  }

  /** Each selected pair is a block and the next one, both among the `n` blocks. */
  predicate Adjacent(selected: seq<Measurement>, n: nat) {
    forall m :: m in selected ==> m.second == m.first + 1 && m.second < n
  }

  /** No selected pair straddles block `i`. */
  predicate Aligned(selected: seq<Measurement>, i: nat) {
    forall m :: m in selected ==> m.second < i || m.first >= i
  }

  /** Of disjoint pairs, two different ones share no block. */
  lemma DisjointApart(selected: seq<Measurement>, p: Measurement, q: Measurement)
    requires Disjoint(selected) && p in selected && q in selected && p != q
    ensures !Shares(p, q)
  {
    var a :| 0 <= a < |selected| && selected[a] == p;
    var b :| 0 <= b < |selected| && selected[b] == q;
    assert a < b || b < a;
  }

  /** Where no pair straddles the walk, a taken block begins a pair. */
  lemma AlignedClaimedIsFirst(selected: seq<Measurement>, n: nat, i: nat)
    requires Adjacent(selected, n) && Aligned(selected, i) && i in Claimed(selected)
    ensures i in PairMap(selected)
  {
    ClaimedMembers(selected, i);
    var m :| m in selected && (m.first == i || m.second == i);
    assert m.first == i;
    PairMapMembers(selected, i);
  }

  /** After a pair row at `i`, no pair straddles `i + 2`. */
  lemma AlignedAfterPair(selected: seq<Measurement>, n: nat, i: nat)
    requires Disjoint(selected) && Adjacent(selected, n) && Aligned(selected, i) && i in PairMap(selected)
    ensures Aligned(selected, i + 2)
  {
    PairMapMembers(selected, i);
    var p := PairMap(selected)[i];
    forall q | q in selected ensures q.second < i + 2 || q.first >= i + 2 {
      if q != p {
        DisjointApart(selected, p, q);
      }
    }
  }

  /** After a single row at `i`, no pair straddles `i + 1`. */
  lemma AlignedAfterSingle(selected: seq<Measurement>, i: nat)
    requires Aligned(selected, i) && i !in Claimed(selected)
    ensures Aligned(selected, i + 1)
  {
    ClaimedMembers(selected, i);
  }

  /** The walk from an unstraddled block lists every later block once, in order. */
  lemma {:induction false} PlanFromCovers(selected: seq<Measurement>, n: nat, i: nat)
    requires Disjoint(selected) && Adjacent(selected, n) && Aligned(selected, i)
    ensures Flatten(PlanFrom(n, Claimed(selected), PairMap(selected), i)) == Range(i, n)
    decreases n - i
  {
    var paired, pairMap := Claimed(selected), PairMap(selected);
    if i < n {
      if i in paired {
        AlignedClaimedIsFirst(selected, n, i);
        AlignedAfterPair(selected, n, i);
        PairMapMembers(selected, i);
        PlanFromCovers(selected, n, i + 2);
        var rest := PlanFrom(n, paired, pairMap, i + 2);
        assert PlanFrom(n, paired, pairMap, i) == [Pair(i, i + 1)] + rest;
        FlattenCons(Pair(i, i + 1), rest);
        assert Range(i, n) == [i] + Range(i + 1, n);
        assert Range(i + 1, n) == [i + 1] + Range(i + 2, n);
      } else {
        AlignedAfterSingle(selected, i);
        PlanFromCovers(selected, n, i + 1);
        var rest := PlanFrom(n, paired, pairMap, i + 1);
        assert PlanFrom(n, paired, pairMap, i) == [Single(i)] + rest;
        FlattenCons(Single(i), rest);
      }
    }
  }

  // ---------------------------------------------------------------------
  // One pair row per selected pair
  // ---------------------------------------------------------------------

  function CountPairs(plan: seq<Item>): nat {
    if plan == [] then 0 else (if plan[0].Pair? then 1 else 0) + CountPairs(plan[1..])
  }

  /** The number of selected pairs beginning with block `x`. */
  function NumAt(selected: seq<Measurement>, x: nat): nat {
    if selected == [] then 0 else (if selected[0].first == x then 1 else 0) + NumAt(selected[1..], x)
  }

  /** The number of selected pairs beginning at block `x` or later. */
  function NumFrom(selected: seq<Measurement>, x: nat): nat {
    if selected == [] then 0 else (if selected[0].first >= x then 1 else 0) + NumFrom(selected[1..], x)
  }

  lemma {:induction false} NumFromSplit(selected: seq<Measurement>, x: nat)
    ensures NumFrom(selected, x) == NumAt(selected, x) + NumFrom(selected, x + 1)
  {
    if selected != [] {
      NumFromSplit(selected[1..], x);
    }
  }

  lemma {:induction false} NumAtNone(selected: seq<Measurement>, x: nat)
    requires forall m :: m in selected ==> m.first != x
    ensures NumAt(selected, x) == 0
  {
    if selected != [] {
      assert selected[0] in selected;
      assert forall m :: m in selected[1..] ==> m in selected;
      NumAtNone(selected[1..], x);
    }
  }

  /** Of disjoint pairs, at most one begins with a given block. */
  lemma {:induction false} NumAtOne(selected: seq<Measurement>, p: Measurement)
    requires Disjoint(selected) && p in selected
    ensures NumAt(selected, p.first) == 1
  {
    var rest := selected[1..];
    assert Disjoint(rest) by {
      forall a, b | 0 <= a < b < |rest| ensures !Shares(rest[a], rest[b]) {
        assert rest[a] == selected[a + 1] && rest[b] == selected[b + 1];
      }
    }
    if selected[0] == p {
      forall m | m in rest ensures m.first != p.first {
        var b :| 0 <= b < |rest| && rest[b] == m;
        assert selected[b + 1] == m;
      }
      NumAtNone(rest, p.first);
    } else {
      assert p in rest;
      NumAtOne(rest, p);
      DisjointApart(selected, selected[0], p);
    }
  }

  /** Pairs all within the `n` blocks begin before `n`. */
  lemma {:induction false} NumFromBeyond(selected: seq<Measurement>, n: nat, x: nat)
    requires Adjacent(selected, n) && x >= n
    ensures NumFrom(selected, x) == 0
  {
    if selected != [] {
      assert selected[0] in selected;
      assert forall m :: m in selected[1..] ==> m in selected;
      NumFromBeyond(selected[1..], n, x);
    }
  }

  /** Every selected pair beginning at `i` or later gives one pair row of the walk from `i`. */
  lemma {:induction false} PlanFromPairCount(selected: seq<Measurement>, n: nat, i: nat)
    requires Disjoint(selected) && Adjacent(selected, n) && Aligned(selected, i)
    ensures CountPairs(PlanFrom(n, Claimed(selected), PairMap(selected), i)) == NumFrom(selected, i)
    decreases n - i
  {
    var paired, pairMap := Claimed(selected), PairMap(selected);
    if i >= n {
      NumFromBeyond(selected, n, i);
    } else if i in paired {
      AlignedClaimedIsFirst(selected, n, i);
      AlignedAfterPair(selected, n, i);
      PlanFromPairCount(selected, n, i + 2);
      PairMapMembers(selected, i);
      var p := pairMap[i];
      NumAtOne(selected, p);
      forall m | m in selected ensures m.first != i + 1 {
        if m != p {
          DisjointApart(selected, p, m);
        }
      }
      NumAtNone(selected, i + 1);
      NumFromSplit(selected, i);
      NumFromSplit(selected, i + 1);
      var rest := PlanFrom(n, paired, pairMap, i + 2);
      assert ([Pair(i, i + 1)] + rest)[1..] == rest;
    } else {
      AlignedAfterSingle(selected, i);
      PlanFromPairCount(selected, n, i + 1);
      ClaimedMembers(selected, i);
      NumAtNone(selected, i);
      NumFromSplit(selected, i);
      var rest := PlanFrom(n, paired, pairMap, i + 1);
      assert ([Single(i)] + rest)[1..] == rest;
    }
  }

  lemma {:induction false} NumFromZero(selected: seq<Measurement>)
    ensures NumFrom(selected, 0) == |selected|
  {
    if selected != [] {
      NumFromZero(selected[1..]);
    }
  }

  /**
   * For disjoint pairs of neighbouring blocks, `_buildPlanFromPairs` lists
   * every block exactly once and in order, with one pair row per selected
   * pair; its "second of a pair" branch is never taken, since a skipped
   * block would be missing from the list.
   */
  lemma BuildPlanFacts(n: nat, selected: seq<Measurement>)
    requires Disjoint(selected) && Adjacent(selected, n)
    ensures Flatten(BuildPlan(n, selected)) == Range(0, n)
    ensures CountPairs(BuildPlan(n, selected)) == |selected|
  {
    PlanFromCovers(selected, n, 0);
    PlanFromPairCount(selected, n, 0);
    NumFromZero(selected);
  }

  /** A pair row of the plan is a selected pair, and every selected pair is a row. */
  lemma BuildPlanPairs(n: nat, selected: seq<Measurement>, l: nat, r: nat)
    requires Disjoint(selected) && Adjacent(selected, n)
    ensures Pair(l, r) in BuildPlan(n, selected) <==> exists m :: m in selected && m.first == l && m.second == r
  {
    var plan := BuildPlan(n, selected);
    if Pair(l, r) in plan {
      PlanFromWellPlaced(n, Claimed(selected), PairMap(selected), 0);
      var k :| 0 <= k < |plan| && plan[k] == Pair(l, r);
      PairMapMembers(selected, l);
    }
    if m :| m in selected && m.first == l && m.second == r {
      PlanFromCovers(selected, n, 0);
      PairRowOf(selected, n, 0, m);
    }
  }

  /** The walk from an unstraddled block reaches a pair beginning at or after it as a pair row. */
  lemma {:induction false} PairRowOf(selected: seq<Measurement>, n: nat, i: nat, m: Measurement)
    requires Disjoint(selected) && Adjacent(selected, n) && Aligned(selected, i)
    requires m in selected && m.first >= i
    ensures Pair(m.first, m.second) in PlanFrom(n, Claimed(selected), PairMap(selected), i)
    decreases n - i
  {
    var paired, pairMap := Claimed(selected), PairMap(selected);
    ClaimedMembers(selected, m.first);
    PairMapMembers(selected, m.first);
    if i in paired {
      AlignedClaimedIsFirst(selected, n, i);
      AlignedAfterPair(selected, n, i);
      PairMapMembers(selected, i);
      if pairMap[i] != m {
        DisjointApart(selected, pairMap[i], m);
        PairRowOf(selected, n, i + 2, m);
      }
    } else {
      AlignedAfterSingle(selected, i);
      PairRowOf(selected, n, i + 1, m);
    }
  }

  // ---------------------------------------------------------------------
  // The page simulation
  // ---------------------------------------------------------------------

  /** Every row's height is at hand: its block exists, or a pair is stored under its first block. */
  predicate RowsKnown(plan: seq<Item>, heights: seq<real>, pairMap: map<nat, Measurement>) {
    forall k :: 0 <= k < |plan| ==>
      match plan[k]
      case Single(j) => j < |heights|
      case Pair(l, _) => l in pairMap
  }

  /** The rows of a walk over the blocks of `heights` have known heights. */
  lemma PlanFromRowsKnown(heights: seq<real>, paired: set<nat>, pairMap: map<nat, Measurement>, i: nat)
    ensures RowsKnown(PlanFrom(|heights|, paired, pairMap, i), heights, pairMap)
  {
    PlanFromWellPlaced(|heights|, paired, pairMap, i);
  }

  /** The height of each row: a block's own height, or the measured height of its pair. */
  function RowHeights(plan: seq<Item>, heights: seq<real>, pairMap: map<nat, Measurement>): (rows: seq<real>)
    requires RowsKnown(plan, heights, pairMap)
    ensures |rows| == |plan|
  {
    if plan == [] then []
    else
      var h := match plan[0] case Single(i) => heights[i] case Pair(l, _) => pairMap[l].pairH;
      [h] + RowHeights(plan[1..], heights, pairMap)
  }

  /**
   * The pages the rows take, with `usedY` of the current page already used
   * and `pages` pages opened: a row that does not fit below `usedY` opens a
   * new page.
   */
  function PagesFor(rows: seq<real>, usedY: real, pages: nat, fullPageSpace: real): nat {
    if rows == [] then pages
    else
      var h := rows[0];
      if usedY + h > fullPageSpace then PagesFor(rows[1..], h, pages + 1, fullPageSpace)
      else PagesFor(rows[1..], usedY + h, pages, fullPageSpace)
  }

  /**
   * What `_simulateLayout` returns: the pages of the plan's rows, the first
   * page starting with `fullPageSpace - firstPageSpace` already used.
   */
  function Simulate(heights: seq<real>, selected: seq<Measurement>, firstPageSpace: real, fullPageSpace: real): nat {
    PlanFromRowsKnown(heights, Claimed(selected), PairMap(selected), 0);
    var rows := RowHeights(BuildPlan(|heights|, selected), heights, PairMap(selected));
    PagesFor(rows, fullPageSpace - firstPageSpace, 1, fullPageSpace)
  }

  /** `_simulateLayout`: the walk of `_buildPlanFromPairs`, counting pages instead of emitting rows. */
  method SimulateLayout(heights: seq<real>, selectedPairs: seq<Measurement>, firstPageSpace: real, fullPageSpace: real)
    returns (pages: nat)
    ensures pages == Simulate(heights, selectedPairs, firstPageSpace, fullPageSpace)
  {
    var n := |heights|;
    var pairedSet: set<nat>, pairMap: map<nat, Measurement> := {}, map[];
    for k := 0 to |selectedPairs|
      invariant pairedSet == Claimed(selectedPairs[..k])
      invariant pairMap == PairMap(selectedPairs[..k])
    {
      var p := selectedPairs[k];
      IndexStep(selectedPairs, k);
      pairedSet := pairedSet + {p.first};
      pairedSet := pairedSet + {p.second};
      pairMap := pairMap[p.first := p];
    }
    assert selectedPairs[..|selectedPairs|] == selectedPairs;
    pages := 1;
    var usedY := fullPageSpace - firstPageSpace;
    var i := 0;
    while i < n
      invariant PagesFor(RowsFrom(heights, pairedSet, pairMap, i), usedY, pages, fullPageSpace)
                == Simulate(heights, selectedPairs, firstPageSpace, fullPageSpace)
      decreases n - i
    {
      WalkStep(heights, pairedSet, pairMap, i, usedY, pages, fullPageSpace);
      var blockH: real;
      if i in pairedSet && i in pairMap {
        blockH := pairMap[i].pairH;
        i := i + 2;
      } else if i in pairedSet {
        i := i + 1;
        continue;
      } else {
        blockH := heights[i];
        i := i + 1;
      }
      if usedY + blockH > fullPageSpace {
        pages := pages + 1;
        usedY := 0.0;
      }
      usedY := usedY + blockH;
    }
    assert RowsFrom(heights, pairedSet, pairMap, i) == [];
  }

  /** The heights of the rows the walk emits from block `i` on. */
  function RowsFrom(heights: seq<real>, paired: set<nat>, pairMap: map<nat, Measurement>, i: nat): seq<real> {
    PlanFromRowsKnown(heights, paired, pairMap, i);
    RowHeights(PlanFrom(|heights|, paired, pairMap, i), heights, pairMap)
  }

  /** The pages counted from block `i` on, one row (or one skipped block) further. */
  lemma WalkStep(heights: seq<real>, paired: set<nat>, pairMap: map<nat, Measurement>, i: nat,
                 usedY: real, pages: nat, fullPageSpace: real)
    requires i < |heights|
    ensures i in paired && i in pairMap ==>
              var h := pairMap[i].pairH;
              PagesFor(RowsFrom(heights, paired, pairMap, i), usedY, pages, fullPageSpace) ==
              if usedY + h > fullPageSpace then PagesFor(RowsFrom(heights, paired, pairMap, i + 2), 0.0 + h, pages + 1, fullPageSpace)
              else PagesFor(RowsFrom(heights, paired, pairMap, i + 2), usedY + h, pages, fullPageSpace)
    ensures i in paired && i !in pairMap ==>
              RowsFrom(heights, paired, pairMap, i) == RowsFrom(heights, paired, pairMap, i + 1)
    ensures i !in paired ==>
              var h := heights[i];
              PagesFor(RowsFrom(heights, paired, pairMap, i), usedY, pages, fullPageSpace) ==
              if usedY + h > fullPageSpace then PagesFor(RowsFrom(heights, paired, pairMap, i + 1), 0.0 + h, pages + 1, fullPageSpace)
              else PagesFor(RowsFrom(heights, paired, pairMap, i + 1), usedY + h, pages, fullPageSpace)
  {
    RowsStep(heights, paired, pairMap, i);
    if i in paired && i in pairMap {
      PagesForStep(pairMap[i].pairH, RowsFrom(heights, paired, pairMap, i + 2), usedY, pages, fullPageSpace);
    } else if i !in paired {
      PagesForStep(heights[i], RowsFrom(heights, paired, pairMap, i + 1), usedY, pages, fullPageSpace);
    }
  }

  /** One step of the walk, seen as rows and their heights. */
  lemma RowsStep(heights: seq<real>, paired: set<nat>, pairMap: map<nat, Measurement>, i: nat)
    requires i < |heights|
    ensures RowsKnown(PlanFrom(|heights|, paired, pairMap, i + 1), heights, pairMap)
    ensures RowsKnown(PlanFrom(|heights|, paired, pairMap, i + 2), heights, pairMap)
    ensures RowsKnown(PlanFrom(|heights|, paired, pairMap, i), heights, pairMap)
    ensures i in paired && i in pairMap ==>
              RowHeights(PlanFrom(|heights|, paired, pairMap, i), heights, pairMap) ==
              [pairMap[i].pairH] + RowHeights(PlanFrom(|heights|, paired, pairMap, i + 2), heights, pairMap)
    ensures i in paired && i !in pairMap ==>
              PlanFrom(|heights|, paired, pairMap, i) == PlanFrom(|heights|, paired, pairMap, i + 1)
    ensures i !in paired ==>
              RowHeights(PlanFrom(|heights|, paired, pairMap, i), heights, pairMap) ==
              [heights[i]] + RowHeights(PlanFrom(|heights|, paired, pairMap, i + 1), heights, pairMap)
  {
    var n := |heights|;
    PlanFromRowsKnown(heights, paired, pairMap, i);
    PlanFromRowsKnown(heights, paired, pairMap, i + 1);
    PlanFromRowsKnown(heights, paired, pairMap, i + 2);
    if i in paired && i in pairMap {
      var rest := PlanFrom(n, paired, pairMap, i + 2);
      assert ([Pair(i, i + 1)] + rest)[1..] == rest;
    } else if i !in paired {
      var rest := PlanFrom(n, paired, pairMap, i + 1);
      assert ([Single(i)] + rest)[1..] == rest;
    }
  }

  /** One row placed: on the current page when it fits below `usedY`, on a new page otherwise. */
  lemma PagesForStep(h: real, rest: seq<real>, usedY: real, pages: nat, fullPageSpace: real)
    ensures PagesFor([h] + rest, usedY, pages, fullPageSpace) ==
              if usedY + h > fullPageSpace then PagesFor(rest, 0.0 + h, pages + 1, fullPageSpace)
              else PagesFor(rest, usedY + h, pages, fullPageSpace)
  {
    assert ([h] + rest)[1..] == rest;
  }

  /** Each row opens at most one page. */
  lemma {:induction false} PagesForBounds(rows: seq<real>, usedY: real, pages: nat, fullPageSpace: real)
    ensures pages <= PagesFor(rows, usedY, pages, fullPageSpace) <= pages + |rows|
  {
    if rows != [] {
      var h := rows[0];
      if usedY + h > fullPageSpace {
        PagesForBounds(rows[1..], h, pages + 1, fullPageSpace);
      } else {
        PagesForBounds(rows[1..], usedY + h, pages, fullPageSpace);
      }
    }
  }

  /** `_simulateLayout` counts at least one page and at most one more than the plan has rows. */
  lemma SimulateBounds(heights: seq<real>, selected: seq<Measurement>, firstPageSpace: real, fullPageSpace: real)
    ensures 1 <= Simulate(heights, selected, firstPageSpace, fullPageSpace) <= 1 + |BuildPlan(|heights|, selected)|
  {
    PlanFromRowsKnown(heights, Claimed(selected), PairMap(selected), 0);
    var rows := RowHeights(BuildPlan(|heights|, selected), heights, PairMap(selected));
    PagesForBounds(rows, fullPageSpace - firstPageSpace, 1, fullPageSpace);
  }

  function Sum(xs: seq<real>): real {
    if xs == [] then 0.0 else xs[0] + Sum(xs[1..])
  }

  /** Rows of no negative height that fit below `usedY` together open no page. */
  lemma {:induction false} PagesForOnePage(rows: seq<real>, usedY: real, pages: nat, fullPageSpace: real)
    requires forall k :: 0 <= k < |rows| ==> rows[k] >= 0.0
    requires usedY + Sum(rows) <= fullPageSpace
    ensures PagesFor(rows, usedY, pages, fullPageSpace) == pages
  {
    if rows != [] {
      SumNonNegative(rows[1..]);
      PagesForOnePage(rows[1..], usedY + rows[0], pages, fullPageSpace);
    }
  }

  lemma {:induction false} SumNonNegative(xs: seq<real>)
    requires forall k :: 0 <= k < |xs| ==> xs[k] >= 0.0
    ensures Sum(xs) >= 0.0
  {
    if xs != [] {
      SumNonNegative(xs[1..]);
    }
  }

  /**
   * No page holds more than `fullPageSpace`: when no row is taller than a
   * page, what is used already and the rows together are at most a page
   * per page counted.
   */
  lemma {:induction false} PagesForCapacity(rows: seq<real>, usedY: real, pages: nat, fullPageSpace: real)
    requires forall k :: 0 <= k < |rows| ==> 0.0 <= rows[k] <= fullPageSpace
    requires 0.0 <= usedY <= fullPageSpace
    ensures usedY + Sum(rows) <= fullPageSpace * ((PagesFor(rows, usedY, pages, fullPageSpace) - pages + 1) as real)
  {
    if rows != [] {
      var h, rest := rows[0], rows[1..];
      var total := PagesFor(rows, usedY, pages, fullPageSpace);
      var factor := (total - pages + 1) as real;
      assert Sum(rows) == h + Sum(rest);
      if usedY + h > fullPageSpace {
        PagesForCapacity(rest, h, pages + 1, fullPageSpace);
        assert total == PagesFor(rest, h, pages + 1, fullPageSpace);
        PagesForBounds(rest, h, pages + 1, fullPageSpace);
        var extra := (total - (pages + 1) + 1) as real;
        assert factor == extra + 1.0;
        assert h + Sum(rest) <= fullPageSpace * extra;
        assert fullPageSpace * factor == fullPageSpace * extra + fullPageSpace;
      } else {
        PagesForCapacity(rest, usedY + h, pages, fullPageSpace);
        assert total == PagesFor(rest, usedY + h, pages, fullPageSpace);
      }
    }
  }
}
