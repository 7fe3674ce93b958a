/**
 * The pair measurement and selection of the two-column planner
 * (`_measurePairs` and `_selectBestPairs` in js/pdf.js). Heights are exact
 * millimetres; the half-width rendering of block `i` is the given height
 * `half[i]`.
 */
module PdfPairs {

  /** One measured candidate pair of blocks `first` and `second`. */
  datatype Measurement = Measurement(first: nat, second: nat, pairH: real, savedH: real)

  /** `Math.max`. */
  function Max(a: real, b: real): (m: real)
    ensures m >= a && m >= b && (m == a || m == b)
  {
    if a >= b then a else b
  }

  /**
   * The measurement of blocks `i` and `j` side by side: the row is as tall
   * as the taller half-width rendering, and the saving is what the two
   * full-width blocks took minus that row.
   */
  function Measure(i: nat, j: nat, heights: seq<real>, half: seq<real>): (m: Measurement)
    requires i < |heights| && j < |heights| && |half| == |heights|
    ensures m.first == i && m.second == j
    ensures m.pairH >= half[i] && m.pairH >= half[j] && (m.pairH == half[i] || m.pairH == half[j])
    ensures m.savedH + m.pairH == heights[i] + heights[j]
  {
    var pairH := Max(half[i], half[j]);
    Measurement(i, j, pairH, heights[i] + heights[j] - pairH)
  }

  /** Every pair names two existing blocks. */
  predicate PairsInBounds(pairs: seq<(nat, nat)>, n: nat) {
    forall k :: 0 <= k < |pairs| ==> pairs[k].0 < n && pairs[k].1 < n
  }

  /** The measurements of `pairs`, in order. */
  function MeasureAll(pairs: seq<(nat, nat)>, heights: seq<real>, half: seq<real>): seq<Measurement>
    requires |half| == |heights| && PairsInBounds(pairs, |heights|)
  {
    seq(|pairs|, k requires 0 <= k < |pairs| => Measure(pairs[k].0, pairs[k].1, heights, half))
  }

  /** `_measurePairs`: one measurement per pair, in the order of the pairs. */
  method MeasurePairs(pairs: seq<(nat, nat)>, heights: seq<real>, half: seq<real>)
    returns (measurements: seq<Measurement>)
    requires |half| == |heights| && PairsInBounds(pairs, |heights|)
    ensures measurements == MeasureAll(pairs, heights, half)
  {
    measurements := [];
    for k := 0 to |pairs|
      invariant |measurements| == k
      invariant forall l :: 0 <= l < k ==> measurements[l] == Measure(pairs[l].0, pairs[l].1, heights, half)
    {
      var (i, j) := pairs[k];
      var pairH := Max(half[i], half[j]);
      var savedH := heights[i] + heights[j] - pairH;
      measurements := measurements + [Measurement(i, j, pairH, savedH)];
    }
  }

  // ---------------------------------------------------------------------
  // The stable sort by saving, largest first
  // ---------------------------------------------------------------------

  predicate NonIncreasing(ms: seq<Measurement>) {
    forall a, b :: 0 <= a < b < |ms| ==> ms[a].savedH >= ms[b].savedH
  }

  /** `m` placed before the first element that saves no more than it. */
  function Insert(m: Measurement, sorted: seq<Measurement>): (r: seq<Measurement>)
    ensures multiset(r) == multiset(sorted) + multiset{m}
  {
    if sorted == [] || sorted[0].savedH <= m.savedH then [m] + sorted
    else
      assert sorted == [sorted[0]] + sorted[1..];
      [sorted[0]] + Insert(m, sorted[1..])
  }

  /**
   * `[...ms].sort((a, b) => b.savedH - a.savedH)`: JavaScript's sort is
   * stable, so measurements that save the same keep their order.
   */
  function SortBySaving(ms: seq<Measurement>): (sorted: seq<Measurement>)
    ensures multiset(sorted) == multiset(ms)
  {
    if ms == [] then []
    else
      assert ms == [ms[0]] + ms[1..];
      Insert(ms[0], SortBySaving(ms[1..]))
  }

  /** The measurements that save exactly `v`, in order. */
  function WithSaving(ms: seq<Measurement>, v: real): seq<Measurement> {
    if ms == [] then []
    else (if ms[0].savedH == v then [ms[0]] else []) + WithSaving(ms[1..], v)
  }

  /** Inserting into a list sorted by saving keeps it sorted. */
  lemma {:induction false} InsertOrdered(m: Measurement, sorted: seq<Measurement>)
    requires NonIncreasing(sorted)
    ensures NonIncreasing(Insert(m, sorted))
  {
    if sorted != [] && sorted[0].savedH > m.savedH {
      var rest := sorted[1..];
      InsertOrdered(m, rest);
      var r := Insert(m, rest);
      forall b | 0 <= b < |r| ensures sorted[0].savedH >= r[b].savedH {
        var y := r[b];
        assert y in multiset(rest) + multiset{m};
        if y != m {
          var c :| 0 <= c < |rest| && rest[c] == y;
          assert sorted[c + 1] == y;
        }
      }
      assert Insert(m, sorted) == [sorted[0]] + r;
    }
  }

  /** The inserted element comes first among those that save as much. */
  lemma {:induction false} InsertWithSaving(m: Measurement, sorted: seq<Measurement>, v: real)
    ensures WithSaving(Insert(m, sorted), v) == (if m.savedH == v then [m] else []) + WithSaving(sorted, v)
  {
    if sorted != [] && sorted[0].savedH > m.savedH {
      InsertWithSaving(m, sorted[1..], v);
      assert ([sorted[0]] + Insert(m, sorted[1..]))[1..] == Insert(m, sorted[1..]);
    } else {
      assert ([m] + sorted)[1..] == sorted;
    }
  }

  /** The sort puts largest savings first. */
  lemma {:induction false} SortOrdered(ms: seq<Measurement>)
    ensures NonIncreasing(SortBySaving(ms))
  {
    if ms != [] {
      SortOrdered(ms[1..]);
      InsertOrdered(ms[0], SortBySaving(ms[1..]));
    }
  }

  /** The sort is stable: the measurements saving the same amount keep their input order. */
  lemma {:induction false} SortStable(ms: seq<Measurement>, v: real)
    ensures WithSaving(SortBySaving(ms), v) == WithSaving(ms, v)
  {
    if ms != [] {
      SortStable(ms[1..], v);
      InsertWithSaving(ms[0], SortBySaving(ms[1..]), v);
    }
  }

  // ---------------------------------------------------------------------
  // The greedy selection
  // ---------------------------------------------------------------------

  /** Two measurements have a block in common. */
  predicate Shares(x: Measurement, y: Measurement) {
    x.first == y.first || x.first == y.second || x.second == y.first || x.second == y.second
  }

  /** The blocks of the selected pairs: the `paired` set. */
  function Claimed(selected: seq<Measurement>): set<nat> {
    if selected == [] then {}
    else
      var last := selected[|selected| - 1];
      Claimed(selected[..|selected| - 1]) + {last.first, last.second}
  }

  /** A block is claimed exactly when a selected pair holds it. */
  lemma {:induction false} ClaimedMembers(selected: seq<Measurement>, x: nat)
    ensures x in Claimed(selected) <==> exists m :: m in selected && (m.first == x || m.second == x)
  {
    if selected != [] {
      var init := selected[..|selected| - 1];
      ClaimedMembers(init, x);
      assert selected == init + [selected[|selected| - 1]];
    }
  }

  /** A pair is taken when it saves something and neither block is taken yet. */
  predicate Accepts(claimed: set<nat>, m: Measurement) {
    m.savedH > 0.0 && m.first !in claimed && m.second !in claimed
  }

  /** The loop of `_selectBestPairs` over `sorted`, as it stands after its last element. */
  function Greedy(sorted: seq<Measurement>): (selected: seq<Measurement>)
    ensures multiset(selected) <= multiset(sorted)
    ensures forall m :: m in selected ==> m.savedH > 0.0
  {
    if sorted == [] then []
    else
      var init := sorted[..|sorted| - 1];
      var m := sorted[|sorted| - 1];
      var prev := Greedy(init);
      assert sorted == init + [m];
      if Accepts(Claimed(prev), m) then prev + [m] else prev
  }

  /** One more element of `sorted` is taken or passed over. */
  lemma GreedyStep(sorted: seq<Measurement>, k: nat)
    requires k < |sorted|
    ensures Greedy(sorted[..k + 1]) ==
              if Accepts(Claimed(Greedy(sorted[..k])), sorted[k]) then Greedy(sorted[..k]) + [sorted[k]]
              else Greedy(sorted[..k])
  {
    assert sorted[..k + 1][..k] == sorted[..k];
  }

  /** `_selectBestPairs`: the greedy loop over the measurements sorted by saving. */
  function SelectBest(ms: seq<Measurement>): seq<Measurement> {
    Greedy(SortBySaving(ms))
  }

  /** `_selectBestPairs`, with its `paired` set and `selected` list. */
  method SelectBestPairs(pairMeasurements: seq<Measurement>) returns (selected: seq<Measurement>)
    ensures selected == SelectBest(pairMeasurements)
  {
    var sorted := SortBySaving(pairMeasurements);
    var paired: set<nat> := {};
    selected := [];
    for k := 0 to |sorted|
      invariant selected == Greedy(sorted[..k])
      invariant paired == Claimed(selected)
    {
      GreedyStep(sorted, k);
      var pm := sorted[k];
      if pm.savedH <= 0.0 {
        continue;
      }
      if pm.first in paired || pm.second in paired {
        continue;
      }
      selected := selected + [pm];
      paired := paired + {pm.first};
      paired := paired + {pm.second};
    }
    assert sorted[..|sorted|] == sorted;
  }

  /** No two selected pairs have a block in common. */
  predicate Disjoint(selected: seq<Measurement>) {
    forall a, b :: 0 <= a < b < |selected| ==> !Shares(selected[a], selected[b])
  }

  /** What the loop selected from a prefix is a prefix of what it selects from all. */
  lemma {:induction false} GreedyPrefix(sorted: seq<Measurement>, p: nat)
    requires p <= |sorted|
    ensures Greedy(sorted[..p]) <= Greedy(sorted)
    decreases |sorted|
  {
    if p < |sorted| {
      var init := sorted[..|sorted| - 1];
      GreedyPrefix(init, p);
      assert init[..p] == sorted[..p];
    } else {
      assert sorted[..p] == sorted;
    }
  }

  /** The selected pairs are pairwise disjoint. */
  lemma {:induction false} GreedyDisjoint(sorted: seq<Measurement>)
    ensures Disjoint(Greedy(sorted))
  {
    if sorted != [] {
      var init := sorted[..|sorted| - 1];
      var m := sorted[|sorted| - 1];
      var prev := Greedy(init);
      GreedyDisjoint(init);
      if Accepts(Claimed(prev), m) {
        var sel := prev + [m];
        forall a, b | 0 <= a < b < |sel| ensures !Shares(sel[a], sel[b]) {
          if b == |prev| {
            assert sel[a] in prev;
            ClaimedMembers(prev, m.first);
            ClaimedMembers(prev, m.second);
          } else {
            assert sel[a] == prev[a] && sel[b] == prev[b];
          }
        }
      }
    }
  }

  /** From measurements sorted by saving, the selection is sorted by saving too. */
  lemma {:induction false} GreedyOrdered(sorted: seq<Measurement>)
    requires NonIncreasing(sorted)
    ensures NonIncreasing(Greedy(sorted))
  {
    if sorted != [] {
      var init := sorted[..|sorted| - 1];
      var m := sorted[|sorted| - 1];
      var prev := Greedy(init);
      GreedyOrdered(init);
      if Accepts(Claimed(prev), m) {
        var sel := prev + [m];
        forall a, b | 0 <= a < b < |sel| ensures sel[a].savedH >= sel[b].savedH {
          if b == |prev| {
            assert sel[a] in multiset(init);
            var c :| 0 <= c < |init| && init[c] == sel[a];
            assert sorted[c] == init[c];
          } else {
            assert sel[a] == prev[a] && sel[b] == prev[b];
          }
        }
      }
    }
  }

  /**
   * No pair is passed over without reason: a measurement that saves
   * something and was not selected has a block in common with a selected
   * pair that saves at least as much.
   */
  lemma GreedyMaximal(sorted: seq<Measurement>, p: nat)
    requires NonIncreasing(sorted)
    requires p < |sorted| && sorted[p].savedH > 0.0 && sorted[p] !in Greedy(sorted)
    ensures exists s :: s in Greedy(sorted) && Shares(s, sorted[p]) && s.savedH >= sorted[p].savedH
  {
    var m := sorted[p];
    var prev := Greedy(sorted[..p]);
    var all := Greedy(sorted);
    GreedyStep(sorted, p);
    GreedyPrefix(sorted, p + 1);
    assert !Accepts(Claimed(prev), m) by {
      InPrefix(Greedy(sorted[..p + 1]), all, m);
      assert m in prev + [m];
    }
    var x := if m.first in Claimed(prev) then m.first else m.second;
    ClaimedMembers(prev, x);
    var s :| s in prev && (s.first == x || s.second == x);
    EarlierSavesMore(sorted, p, s);
    GreedyPrefix(sorted, p);
    InPrefix(prev, all, s);
  }

  /** What a prefix holds, the whole holds. */
  lemma InPrefix(short: seq<Measurement>, long: seq<Measurement>, x: Measurement)
    requires short <= long
    ensures x in short ==> x in long
  {
    if x in short {
      var i :| 0 <= i < |short| && short[i] == x;
      assert long[i] == x;
    }
  }

  /** What the loop selected before reaching position `p` saves at least as much as `sorted[p]`. */
  lemma EarlierSavesMore(sorted: seq<Measurement>, p: nat, s: Measurement)
    requires NonIncreasing(sorted)
    requires p < |sorted| && s in Greedy(sorted[..p])
    ensures s.savedH >= sorted[p].savedH
  {
    var init := sorted[..p];
    assert s in multiset(init);
    var c :| 0 <= c < |init| && init[c] == s;
    assert sorted[c] == s;
  }

  /**
   * `_selectBestPairs` returns some of its measurements, each saving
   * something, no two sharing a block, largest saving first, and passes
   * over a saving measurement only for a selected one that shares a block
   * and saves at least as much.
   */
  lemma SelectBestFacts(ms: seq<Measurement>)
    ensures multiset(SelectBest(ms)) <= multiset(ms)
    ensures forall m :: m in SelectBest(ms) ==> m.savedH > 0.0
    ensures Disjoint(SelectBest(ms))
    ensures NonIncreasing(SelectBest(ms))
    ensures forall m :: m in ms && m.savedH > 0.0 && m !in SelectBest(ms) ==>
              exists s :: s in SelectBest(ms) && Shares(s, m) && s.savedH >= m.savedH
  {
    var sorted := SortBySaving(ms);
    SortOrdered(ms);
    GreedyDisjoint(sorted);
    GreedyOrdered(sorted);
    forall m | m in ms && m.savedH > 0.0 && m !in SelectBest(ms)
      ensures exists s :: s in SelectBest(ms) && Shares(s, m) && s.savedH >= m.savedH
    {
      assert m in multiset(sorted);
      var p :| 0 <= p < |sorted| && sorted[p] == m;
      GreedyMaximal(sorted, p);
    }
  }
}
