/** First-fit slot colouring of intervals. */
module SlotAssignment {
  import opened Wrappers
  import opened ControlCode
  import opened BarrierIntervals

  predicate Overlaps(a: BarrierInterval, b: BarrierInterval) {
    (if a.producer >= b.producer then a.producer else b.producer)
      < (if a.firstConsumer <= b.firstConsumer then a.firstConsumer else b.firstConsumer)
  }

  /** Two intervals interfere when they overlap and stand in different share groups. */
  predicate Interferes(ivs: seq<BarrierInterval>, group: seq<nat>, i: nat, j: nat)
    requires i < |ivs| == |group| && j < |ivs|
  {
    i != j && Overlaps(ivs[i], ivs[j]) && group[i] != group[j]
  }

  /** Interfering intervals have different colours. */
  predicate Proper(ivs: seq<BarrierInterval>, group: seq<nat>, colors: seq<nat>)
    requires |colors| <= |ivs| == |group|
  {
    forall i, j :: 0 <= i < j < |colors| && Interferes(ivs, group, i, j) ==> colors[i] != colors[j]
  }

  /** Every smaller colour was already taken by an earlier interfering interval. */
  ghost predicate Forced(ivs: seq<BarrierInterval>, group: seq<nat>, colors: seq<nat>)
    requires |colors| <= |ivs| == |group|
  {
    forall j, k :: 0 <= k < |colors| && 0 <= j < colors[k] ==> TakenBefore(ivs, group, colors, k, j)
  }

  ghost predicate TakenBefore(ivs: seq<BarrierInterval>, group: seq<nat>, colors: seq<nat>, k: nat, j: nat)
    requires k < |colors| <= |ivs| == |group|
  {
    exists i :: 0 <= i < k && Interferes(ivs, group, i, k) && colors[i] == j
  }

  /** The first-fit colouring in index order. */
  ghost predicate IsFirstFit(ivs: seq<BarrierInterval>, group: seq<nat>, colors: seq<nat>)
    requires |ivs| == |group|
  {
    |colors| == |ivs| && Proper(ivs, group, colors) && Forced(ivs, group, colors)
  }

  function NumColors(colors: seq<nat>): (n: nat)
    ensures forall k :: 0 <= k < |colors| ==> colors[k] < n
    ensures n == 0 || exists k :: 0 <= k < |colors| && colors[k] == n - 1
  {
    if colors == [] then 0
    else
      var front := colors[..|colors| - 1];
      var last := colors[|colors| - 1];
      var n := NumColors(front);
      assert forall k :: 0 <= k < |front| ==> front[k] == colors[k];
      if last < n then n else last + 1
  }

  /** There is only one first-fit colouring. */
  lemma {:induction false} FirstFitUnique(ivs: seq<BarrierInterval>, group: seq<nat>, xs: seq<nat>, ys: seq<nat>,
                                          n: nat)
    requires |ivs| == |group| && IsFirstFit(ivs, group, xs) && IsFirstFit(ivs, group, ys)
    requires n <= |ivs|
    ensures xs[..n] == ys[..n]
  {
    if n > 0 {
      FirstFitUnique(ivs, group, xs, ys, n - 1);
      var k := n - 1;
      assert forall i :: 0 <= i < k ==> xs[..k][i] == xs[i] && ys[..k][i] == ys[i];
      assert !TakenBefore(ivs, group, ys, k, xs[k]);
      assert !TakenBefore(ivs, group, xs, k, ys[k]);
      assert xs[..n] == xs[..k] + [xs[k]] && ys[..n] == ys[..k] + [ys[k]];
    }
  }

  /** `marked` holds the colours of the first `n` intervals that interfere with interval `k`. */
  ghost predicate IsMarked(ivs: seq<BarrierInterval>, group: seq<nat>, colors: seq<nat>, k: nat, n: nat,
                           marked: set<nat>)
    requires n <= |colors| <= k < |ivs| == |group|
  {
    forall c :: c in marked <==> exists h :: 0 <= h < n && Interferes(ivs, group, h, k) && colors[h] == c
  }

  /** The colours that the neighbours of interval `k` have. */
  method MarkNeighbours(ivs: seq<BarrierInterval>, group: seq<nat>, colors: seq<nat>, k: nat) returns (marked: set<nat>)
    requires |colors| == k < |ivs| == |group|
    ensures IsMarked(ivs, group, colors, k, k, marked)
  {
    marked := {};
    for i := 0 to k
      invariant IsMarked(ivs, group, colors, k, i, marked)
    {
      if Interferes(ivs, group, i, k) {
        marked := marked + {colors[i]};
      }
    }
  }

  /** First-fit colouring in vertex order: each interval takes the smallest colour no neighbour has. */
  method SequentialColoring(ivs: seq<BarrierInterval>, group: seq<nat>) returns (colors: seq<nat>, numColors: nat)
    requires |ivs| == |group|
    ensures IsFirstFit(ivs, group, colors)
    ensures numColors == NumColors(colors)
  {
    colors, numColors := [], 0;
    for k := 0 to |ivs|
      invariant |colors| == k
      invariant Proper(ivs, group, colors) && Forced(ivs, group, colors)
      invariant numColors == NumColors(colors)
    {
      var marked := MarkNeighbours(ivs, group, colors, k);
      var j := 0;
      while j < numColors && j in marked
        invariant j <= numColors
        invariant forall c :: 0 <= c < j ==> c in marked
      {
        j := j + 1;
      }
      FreshUnmarked(ivs, group, colors, marked);
      if j == numColors {
        numColors := numColors + 1;
      }
      ExtendColoring(ivs, group, colors, j, marked);
      assert (colors + [j])[..k] == colors;
      colors := colors + [j];
    }
  }

  /** A colour that is not in use is not marked. */
  lemma FreshUnmarked(ivs: seq<BarrierInterval>, group: seq<nat>, colors: seq<nat>, marked: set<nat>)
    requires |colors| < |ivs| == |group| && IsMarked(ivs, group, colors, |colors|, |colors|, marked)
    ensures NumColors(colors) !in marked
  {
  }

  lemma ExtendColoring(ivs: seq<BarrierInterval>, group: seq<nat>, colors: seq<nat>, j: nat, marked: set<nat>)
    requires |colors| < |ivs| == |group|
    requires Proper(ivs, group, colors) && Forced(ivs, group, colors)
    requires IsMarked(ivs, group, colors, |colors|, |colors|, marked)
    requires j !in marked && forall c: nat :: c < j ==> c in marked
    ensures Proper(ivs, group, colors + [j]) && Forced(ivs, group, colors + [j])
  {
    var k, colors' := |colors|, colors + [j];
    forall i | 0 <= i < k && Interferes(ivs, group, i, k)
      ensures colors'[i] != j
    {
      assert colors[i] in marked;
    }
    forall c, m | 0 <= m < |colors'| && 0 <= c < colors'[m]
      ensures TakenBefore(ivs, group, colors', m, c)
    {
      if m < k {
        assert TakenBefore(ivs, group, colors, m, c);
        var i :| 0 <= i < m && Interferes(ivs, group, i, m) && colors[i] == c;
        assert colors'[i] == c;
      } else {
        assert c in marked;
        var h :| 0 <= h < k && Interferes(ivs, group, h, k) && colors[h] == c;
        assert colors'[h] == c;
      }
    }
  }

  /** Share groups and first-fit colours are unique. */
  lemma OnlyColoring(ivs: seq<BarrierInterval>, group: seq<nat>, colors: seq<nat>, g: seq<nat>, c: seq<nat>)
    requires AreShareGroups(ivs, group) && IsFirstFit(ivs, group, colors)
    requires AreShareGroups(ivs, g) && IsFirstFit(ivs, g, c)
    ensures g == group && c == colors
  {
    assert g == group;
    FirstFitUnique(ivs, group, colors, c, |ivs|);
    assert colors[..|ivs|] == colors && c[..|ivs|] == c;
  }

  datatype BarrierAssignment = BarrierAssignment(slotOf: map<nat, nat>, slotsUsed: nat)

  /** The slot of every interval is its colour. */
  predicate AssignsColors(ivs: seq<BarrierInterval>, colors: seq<nat>, a: BarrierAssignment) {
    && |colors| == |ivs|
    && a.slotsUsed == NumColors(colors)
    && forall k :: 0 <= k < |ivs| ==> ivs[k].producer in a.slotOf && a.slotOf[ivs[k].producer] == colors[k]
  }

  /** Slots for all intervals, or nothing when six are not enough for the first-fit colouring. */
  method AssignBarrierSlots(ivs: seq<BarrierInterval>)
    returns (r: Option<BarrierAssignment>, ghost group: seq<nat>, ghost colors: seq<nat>)
    requires SortedByProducer(ivs)
    ensures AreShareGroups(ivs, group) && IsFirstFit(ivs, group, colors)
    ensures r.Some? <==> NumColors(colors) <= SLOT_COUNT
    ensures r.Some? ==> AssignsColors(ivs, colors, r.value)
    ensures forall g, c :: AreShareGroups(ivs, g) && IsFirstFit(ivs, g, c) ==>
              (r.Some? <==> NumColors(c) <= SLOT_COUNT) && (r.Some? ==> AssignsColors(ivs, c, r.value))
  {
    var shareGroup := ComputeShareGroups(ivs);
    var colorOf, numColors := SequentialColoring(ivs, shareGroup);
    group, colors := shareGroup, colorOf;
    forall g, c | AreShareGroups(ivs, g) && IsFirstFit(ivs, g, c)
      ensures g == group && c == colors
    {
      OnlyColoring(ivs, group, colors, g, c);
    }
    if numColors > SLOT_COUNT {
      return None, group, colors;
    }
    var slotOf: map<nat, nat> := map[];
    for i := 0 to |ivs|
      invariant forall k :: 0 <= k < i ==> ivs[k].producer in slotOf && slotOf[ivs[k].producer] == colorOf[k]
    {
      slotOf := slotOf[ivs[i].producer := colorOf[i]];
    }
    return Some(BarrierAssignment(slotOf, numColors)), group, colors;
  }

  // ---------- How many slots first-fit needs ----------

  /** The intervals in flight just after instruction `x` issues. */
  ghost function LiveAt(ivs: seq<BarrierInterval>, x: nat): set<nat> {
    set k | 0 <= k < |ivs| && ivs[k].producer <= x < ivs[k].firstConsumer
  }

  predicate ProperIntervals(ivs: seq<BarrierInterval>) {
    SortedByProducer(ivs) && forall k :: 0 <= k < |ivs| ==> ivs[k].producer < ivs[k].firstConsumer
  }

  /** Earlier intervals that interfere with `k` and use the colours below `n`: one for each colour. */
  lemma {:induction false} Witnesses(ivs: seq<BarrierInterval>, group: seq<nat>, colors: seq<nat>, k: nat, n: nat)
    returns (w: set<nat>)
    requires ProperIntervals(ivs) && |ivs| == |group| && IsFirstFit(ivs, group, colors)
    requires k < |ivs| && n <= colors[k]
    ensures |w| == n
    ensures forall i :: i in w ==> i < k && Interferes(ivs, group, i, k) && colors[i] < n
  {
    w := {};
    if n > 0 {
      var w0 := Witnesses(ivs, group, colors, k, n - 1);
      assert TakenBefore(ivs, group, colors, k, n - 1);
      var i :| 0 <= i < k && Interferes(ivs, group, i, k) && colors[i] == n - 1;
      w := w0 + {i};
    }
  }

  lemma SubsetSize(a: set<nat>, b: set<nat>)
    requires a <= b
    ensures |a| <= |b|
  {
    assert b == a + (b - a);
  }

  /** The colour of an interval is below the number of intervals in flight when it starts. */
  lemma ColorBelowLive(ivs: seq<BarrierInterval>, group: seq<nat>, colors: seq<nat>, k: nat)
    requires ProperIntervals(ivs) && |ivs| == |group| && IsFirstFit(ivs, group, colors) && k < |ivs|
    ensures colors[k] + 1 <= |LiveAt(ivs, ivs[k].producer)|
  {
    var w := Witnesses(ivs, group, colors, k, colors[k]);
    SubsetSize(w + {k}, LiveAt(ivs, ivs[k].producer));
  }

  /** Intervals of other groups that are in flight when interval `k` starts. */
  ghost function OthersAt(ivs: seq<BarrierInterval>, group: seq<nat>, k: nat): set<nat>
    requires k < |ivs| == |group|
  {
    set i | 0 <= i < k && group[i] != group[k] && ivs[i].producer <= ivs[k].producer < ivs[i].firstConsumer
  }

  /** Only intervals of other groups keep an interval from the lowest slots. */
  lemma ColorWithinOthers(ivs: seq<BarrierInterval>, group: seq<nat>, colors: seq<nat>, k: nat)
    requires ProperIntervals(ivs) && |ivs| == |group| && IsFirstFit(ivs, group, colors) && k < |ivs|
    ensures colors[k] <= |OthersAt(ivs, group, k)|
  {
    var w := Witnesses(ivs, group, colors, k, colors[k]);
    SubsetSize(w, OthersAt(ivs, group, k));
  }

  /** Share groups are numbered without gaps. */
  lemma {:induction false} GroupBefore(ivs: seq<BarrierInterval>, k: nat, g: nat) returns (i: nat)
    requires k < |ivs| && g <= GroupAt(ivs, k).0
    ensures i <= k && GroupAt(ivs, i).0 == g
  {
    if g == GroupAt(ivs, k).0 {
      i := k;
    } else {
      i := GroupBefore(ivs, k - 1, g);
    }
  }

  /** All intervals are in flight after instruction `x`. */
  predicate AllInFlight(ivs: seq<BarrierInterval>, x: nat) {
    forall k :: 0 <= k < |ivs| ==> ivs[k].producer <= x < ivs[k].firstConsumer
  }

  /** Where all intervals are in flight together, every share group has a slot of its own, and only one. */
  lemma {:induction false} SlotIsGroup(ivs: seq<BarrierInterval>, group: seq<nat>, colors: seq<nat>, x: nat)
    requires AreShareGroups(ivs, group) && IsFirstFit(ivs, group, colors) && AllInFlight(ivs, x)
    ensures colors == group
  {
    forall j, k | 0 <= k < |group| && 0 <= j < group[k]
      ensures TakenBefore(ivs, group, group, k, j)
    {
      var i := GroupBefore(ivs, k, j);
      assert group[i] == j && Interferes(ivs, group, i, k);
    }
    FirstFitUnique(ivs, group, colors, group, |ivs|);
    assert colors[..|ivs|] == colors && group[..|ivs|] == group;
  }

  lemma {:induction false} LastIsMost(colors: seq<nat>)
    requires colors != [] && forall i, j :: 0 <= i <= j < |colors| ==> colors[i] <= colors[j]
    ensures NumColors(colors) == colors[|colors| - 1] + 1
  {
  }

  /** Producers of one key and direction that are all in flight together need a third as many slots, rounded up. */
  lemma {:induction false} ThreeShareOneSlot(ivs: seq<BarrierInterval>, group: seq<nat>, colors: seq<nat>, x: nat)
    requires AreShareGroups(ivs, group) && IsFirstFit(ivs, group, colors) && AllInFlight(ivs, x)
    requires forall k :: 0 <= k < |ivs| ==> ivs[k].insKey == ivs[0].insKey && ivs[k].direction == ivs[0].direction
    ensures NumColors(colors) == (|ivs| + 2) / 3
  {
    SlotIsGroup(ivs, group, colors, x);
    forall i: nat | i < |ivs|
      ensures group[i] == i / 3
    {
      assert OneRun(ivs, 0, i);
      RunGroups(ivs, 0, i);
    }
    if ivs != [] {
      LastIsMost(group);
    }
  }

  /** With any share groups, first-fit needs no more slots than intervals are ever in flight together. */
  lemma SlotsWithinMaxLive(ivs: seq<BarrierInterval>, group: seq<nat>, colors: seq<nat>, limit: nat)
    requires ProperIntervals(ivs) && |ivs| == |group| && IsFirstFit(ivs, group, colors)
    requires forall x: nat :: |LiveAt(ivs, x)| <= limit
    ensures NumColors(colors) <= limit
  {
    if NumColors(colors) > 0 {
      var k :| 0 <= k < |colors| && colors[k] == NumColors(colors) - 1;
      ColorBelowLive(ivs, group, colors, k);
    }
  }

  /** Distinct colours bound the number of their users. */
  lemma {:induction false} DistinctColors(colors: seq<nat>, s: set<nat>, n: nat)
    requires forall i :: i in s ==> i < |colors| && colors[i] < n
    requires forall i, j :: i in s && j in s && i != j ==> colors[i] != colors[j]
    ensures |s| <= n
    decreases n
  {
    if n == 0 {
      assert s == {};
    } else if exists i :: i in s && colors[i] == n - 1 {
      var i :| i in s && colors[i] == n - 1;
      DistinctColors(colors, s - {i}, n - 1);
    } else {
      DistinctColors(colors, s, n - 1);
    }
  }

  /** Without sharing, intervals in flight together all have different slots. */
  lemma LiveWithinSlots(ivs: seq<BarrierInterval>, group: seq<nat>, colors: seq<nat>, x: nat)
    requires ProperIntervals(ivs) && |ivs| == |group| && IsFirstFit(ivs, group, colors)
    requires forall i, j :: 0 <= i < j < |ivs| ==> group[i] != group[j]
    ensures |LiveAt(ivs, x)| <= NumColors(colors)
  {
    var s := LiveAt(ivs, x);
    forall i, j | i in s && j in s && i != j
      ensures colors[i] != colors[j]
    {
      assert Interferes(ivs, group, i, j) && Interferes(ivs, group, j, i);
    }
    DistinctColors(colors, s, NumColors(colors));
  }

  /** Without sharing, first-fit uses exactly the largest number of intervals in flight together. */
  lemma ExactWithoutSharing(ivs: seq<BarrierInterval>, group: seq<nat>, colors: seq<nat>)
    requires ProperIntervals(ivs) && |ivs| == |group| && IsFirstFit(ivs, group, colors)
    requires forall i, j :: 0 <= i < j < |ivs| ==> group[i] != group[j]
    ensures forall x: nat :: |LiveAt(ivs, x)| <= NumColors(colors)
    ensures exists x: nat :: |LiveAt(ivs, x)| == NumColors(colors)
  {
    forall x: nat
      ensures |LiveAt(ivs, x)| <= NumColors(colors)
    {
      LiveWithinSlots(ivs, group, colors, x);
    }
    if NumColors(colors) == 0 {
      assert ivs == [];
      assert |LiveAt(ivs, 0)| == NumColors(colors);
    } else {
      var k :| 0 <= k < |colors| && colors[k] == NumColors(colors) - 1;
      ColorBelowLive(ivs, group, colors, k);
      assert |LiveAt(ivs, ivs[k].producer)| == NumColors(colors);
    }
  }

  /** Sharing slots never costs slots. */
  lemma SharingNeverHurts(ivs: seq<BarrierInterval>, group: seq<nat>, colors: seq<nat>, alone: seq<nat>,
                          aloneColors: seq<nat>)
    requires ProperIntervals(ivs)
    requires |ivs| == |group| && IsFirstFit(ivs, group, colors)
    requires |ivs| == |alone| && IsFirstFit(ivs, alone, aloneColors)
    requires forall i, j :: 0 <= i < j < |ivs| ==> alone[i] != alone[j]
    ensures NumColors(colors) <= NumColors(aloneColors)
  {
    ExactWithoutSharing(ivs, alone, aloneColors);
    SlotsWithinMaxLive(ivs, group, colors, NumColors(aloneColors));
  }
}
