/** Which producers need a slot, and for how long. */
module BarrierIntervals {
  import opened ControlCode
  import opened DecodedInstructions
  import opened HazardGraph
  import opened Scoreboard

  /** The slot claimed at `producer` stays reserved until `firstConsumer`. */
  datatype BarrierInterval = BarrierInterval(producer: nat, firstConsumer: nat, direction: BarrierType, insKey: string)

  /**
   The curated minimum distance-plus-stall of each instruction key, below which natural spacing
   is not trusted: any table whose entries are at least 1.
   */
  type MarginTable = f: string -> nat | forall key :: f(key) >= 1 witness _ => 1

  /** The edge can be closed by its producer's barrier. */
  predicate EligibleEdge(instrs: seq<DecodedInstruction>, e: HazardEdge)
    requires e.producer < |instrs|
  {
    IsBarrierEligible(instrs[e.producer].latency, RelevantAccessOf(e.kind))
  }

  /** `c` is the nearest consumer that the barrier of `p` can protect. */
  ghost predicate IsFirstConsumer(instrs: seq<DecodedInstruction>, graph: set<HazardEdge>, p: nat, c: nat)
    requires GraphOver(|instrs|, graph)
  {
    && (exists e :: e in graph && e.producer == p && e.consumer == c && EligibleEdge(instrs, e))
    && (forall e :: e in graph && e.producer == p && EligibleEdge(instrs, e) ==> c <= e.consumer)
  }

  /** Natural distance plus the producer's stall count, in 32-bit arithmetic. */
  function Margin(ins: DecodedInstruction, p: nat, c: nat): nat
    requires p < c
  {
    Truncate32(Truncate32(c - p - 1) + ins.ctrlCode.GetStallCount())
  }

  /** The spacing falls short, or the input code already protects this access. */
  predicate NeedsSlot(minSafe: MarginTable, ins: DecodedInstruction, p: nat, c: nat)
    requires p < c && ins.latency.Variable?
  {
    || Margin(ins, p, c) < minSafe(ins.insKey)
    || BarrierField(ins.ctrlCode, ins.latency.barrier) != -1
  }

  ghost predicate IsInterval(minSafe: MarginTable, instrs: seq<DecodedInstruction>, graph: set<HazardEdge>,
                             iv: BarrierInterval)
    requires GraphOver(|instrs|, graph)
  {
    && IsFirstConsumer(instrs, graph, iv.producer, iv.firstConsumer)
    && iv.producer < iv.firstConsumer < |instrs|
    && instrs[iv.producer].latency == Variable(iv.direction)
    && iv.insKey == instrs[iv.producer].insKey
    && NeedsSlot(minSafe, instrs[iv.producer], iv.producer, iv.firstConsumer)
  }

  /** The edge is about what a barrier of this direction waits for: reads of the producer, or its writes. */
  predicate Concerns(e: HazardEdge, p: nat, direction: BarrierType) {
    e.producer == p && (e.kind == WAR <==> direction == READ_BARRIER)
  }

  /**
   What an interval stands for: a barrier of its producer, up to the nearest hazard it can close. The
   scoreboard is open in the input, or the distance and the stall count fall short in 32 bits.
   */
  ghost predicate Protects(minSafe: MarginTable, instrs: seq<DecodedInstruction>, graph: set<HazardEdge>,
                           iv: BarrierInterval)
  {
    var p, c := iv.producer, iv.firstConsumer;
    && p < c < |instrs| && instrs[p].latency == Variable(iv.direction) && instrs[p].insKey == iv.insKey
    && (exists e :: e in graph && Concerns(e, p, iv.direction) && e.consumer == c)
    && (forall e :: e in graph && Concerns(e, p, iv.direction) ==> c <= e.consumer)
    && (|| (if iv.direction == READ_BARRIER then instrs[p].ctrlCode.read else instrs[p].ctrlCode.write) != 7
        || (c - p - 1 + instrs[p].ctrlCode.stall) % 0x1_0000_0000 < minSafe(iv.insKey))
  }

  lemma MarginMeaning(ins: DecodedInstruction, p: nat, c: nat)
    requires p < c
    ensures Margin(ins, p, c) == (c - p - 1 + ins.ctrlCode.stall) % 0x1_0000_0000
  {
    var d, s, m := c - p - 1, ins.ctrlCode.stall, 0x1_0000_0000;
    var q, r := d / m, d % m;
    var t := (r + s) / m;
    assert d + s == (q + t) * m + (r + s) % m;
    DivMod(q + t, (r + s) % m, m);
  }

  lemma {:induction false} FirstConsumerMeaning(instrs: seq<DecodedInstruction>, graph: set<HazardEdge>, p: nat, c: nat,
                                                direction: BarrierType)
    requires GraphOver(|instrs|, graph) && p < |instrs| && instrs[p].latency == Variable(direction)
    ensures IsFirstConsumer(instrs, graph, p, c) <==>
            && (exists e :: e in graph && Concerns(e, p, direction) && e.consumer == c)
            && (forall e :: e in graph && Concerns(e, p, direction) ==> c <= e.consumer)
  {
    forall e | e in graph
      ensures e.producer == p && EligibleEdge(instrs, e) <==> Concerns(e, p, direction)
    {
    }
  }

  lemma {:induction false} IntervalMeaning(minSafe: MarginTable, instrs: seq<DecodedInstruction>,
                                           graph: set<HazardEdge>, iv: BarrierInterval)
    requires GraphOver(|instrs|, graph)
    ensures IsInterval(minSafe, instrs, graph, iv) <==> Protects(minSafe, instrs, graph, iv)
  {
    var p, c := iv.producer, iv.firstConsumer;
    if p < c < |instrs| && instrs[p].latency == Variable(iv.direction) {
      FirstConsumerMeaning(instrs, graph, p, c, iv.direction);
      MarginMeaning(instrs[p], p, c);
    }
  }

  predicate SortedByProducer(ivs: seq<BarrierInterval>) {
    forall i, j :: 0 <= i < j < |ivs| ==> ivs[i].producer < ivs[j].producer
  }

  /** The intervals of a kernel: all of them, in program order. */
  ghost predicate AreIntervals(minSafe: MarginTable, instrs: seq<DecodedInstruction>, graph: set<HazardEdge>,
                               ivs: seq<BarrierInterval>)
    requires GraphOver(|instrs|, graph)
  {
    && SortedByProducer(ivs)
    && forall iv :: iv in ivs <==> IsInterval(minSafe, instrs, graph, iv)
  }

  /** There is only one such list. */
  lemma {:induction false} IntervalsUnique(xs: seq<BarrierInterval>, ys: seq<BarrierInterval>)
    requires SortedByProducer(xs) && SortedByProducer(ys)
    requires forall iv :: iv in xs <==> iv in ys
    ensures xs == ys
    decreases |xs|
  {
    if xs == [] {
      NoElements(ys);
    } else {
      var x := xs[0];
      assert x in ys;
      var k :| 0 <= k < |ys| && ys[k] == x;
      assert ys[0] in ys && ys[0] in xs;
      assert ys[0] == x;
      TailMembers(xs);
      TailMembers(ys);
      IntervalsUnique(xs[1..], ys[1..]);
      assert xs == [x] + xs[1..] && ys == [x] + ys[1..];
    }
  }

  lemma TailMembers(ivs: seq<BarrierInterval>)
    requires SortedByProducer(ivs) && ivs != []
    ensures forall iv :: iv in ivs[1..] <==> iv in ivs && iv != ivs[0]
  {
    assert ivs == [ivs[0]] + ivs[1..];
    assert forall k :: 1 <= k < |ivs| ==> ivs[k] != ivs[0];
  }

  lemma NoElements(ys: seq<BarrierInterval>)
    ensures (forall iv :: iv !in ys) ==> ys == []
  {
    if ys != [] {
      assert ys[0] in ys;
    }
  }

  /** The nearest protectable consumer recorded for every producer, from the edges seen so far. */
  ghost predicate NeedsDescribes(instrs: seq<DecodedInstruction>, seen: set<HazardEdge>,
                                 needs: map<nat, BarrierInterval>)
    requires GraphOver(|instrs|, seen)
  {
    && (forall p :: p in needs ==>
          && p < |instrs|
          && needs[p].producer == p
          && IsFirstConsumer(instrs, seen, p, needs[p].firstConsumer)
          && instrs[p].latency == Variable(needs[p].direction)
          && needs[p].insKey == instrs[p].insKey)
    && (forall e :: e in seen && EligibleEdge(instrs, e) ==> e.producer in needs)
  }

  lemma AddEdge(instrs: seq<DecodedInstruction>, seen: set<HazardEdge>, e: HazardEdge, p: nat, c: nat)
    requires GraphOver(|instrs|, seen + {e}) && p < |instrs|
    requires IsFirstConsumer(instrs, seen, p, c)
    ensures IsFirstConsumer(instrs, seen + {e}, p,
                            if e.producer == p && EligibleEdge(instrs, e) && e.consumer < c then e.consumer else c)
  {
    var w :| w in seen && w.producer == p && w.consumer == c && EligibleEdge(instrs, w);
    assert w in seen + {e} && e in seen + {e};
  }

  method NearestConsumers(instrs: seq<DecodedInstruction>, graph: set<HazardEdge>)
    returns (needs: map<nat, BarrierInterval>)
    requires GraphOver(|instrs|, graph)
    ensures NeedsDescribes(instrs, graph, needs)
  {
    needs := map[];
    var todo := graph;
    ghost var seen: set<HazardEdge> := {};
    while todo != {}
      invariant seen !! todo && seen + todo == graph
      invariant NeedsDescribes(instrs, seen, needs)
    {
      var e :| e in todo;
      var p := e.producer;
      var access := RelevantAccessOf(e.kind);
      forall q | q in needs {
        AddEdge(instrs, seen, e, q, needs[q].firstConsumer);
      }
      if IsBarrierEligible(instrs[p].latency, access) {
        if p !in needs {
          assert IsFirstConsumer(instrs, seen + {e}, p, e.consumer);
          needs := needs[p := BarrierInterval(p, e.consumer, access, instrs[p].insKey)];
        } else if e.consumer < needs[p].firstConsumer {
          needs := needs[p := needs[p].(firstConsumer := e.consumer)];
        }
      }
      todo := todo - {e};
      seen := seen + {e};
    }
    assert seen == graph;
  }

  /** The interval of a producer, if it has one, is its need. */
  lemma NeedIsInterval(minSafe: MarginTable, instrs: seq<DecodedInstruction>, graph: set<HazardEdge>,
                       needs: map<nat, BarrierInterval>, iv: BarrierInterval)
    requires GraphOver(|instrs|, graph) && NeedsDescribes(instrs, graph, needs)
    ensures IsInterval(minSafe, instrs, graph, iv) <==>
            && iv.producer in needs && iv == needs[iv.producer]
            && NeedsSlot(minSafe, instrs[iv.producer], iv.producer, iv.firstConsumer)
  {
  }

  /** The producers that need a slot, in program order. */
  method CollectBarrierIntervals(minSafe: MarginTable, instrs: seq<DecodedInstruction>, graph: set<HazardEdge>)
    returns (ivs: seq<BarrierInterval>)
    requires GraphOver(|instrs|, graph)
    ensures AreIntervals(minSafe, instrs, graph, ivs)
    ensures forall iv :: iv in ivs <==> Protects(minSafe, instrs, graph, iv)
  {
    var needs := NearestConsumers(instrs, graph);
    ivs := [];
    for p := 0 to |instrs|
      invariant SortedByProducer(ivs)
      invariant forall iv :: iv in ivs <==> iv.producer < p && IsInterval(minSafe, instrs, graph, iv)
    {
      forall iv: BarrierInterval | iv.producer == p
        ensures IsInterval(minSafe, instrs, graph, iv) <==>
                p in needs && iv == needs[p] && NeedsSlot(minSafe, instrs[p], p, iv.firstConsumer)
      {
        NeedIsInterval(minSafe, instrs, graph, needs, iv);
      }
      if p in needs {
        var iv := needs[p];
        var ins := instrs[p];
        var clearsMargin := Margin(ins, p, iv.firstConsumer) >= minSafe(ins.insKey);
        var inputAlreadyProtected := BarrierField(ins.ctrlCode, iv.direction) != -1;
        if !(clearsMargin && !inputAlreadyProtected) {
          assert IsInterval(minSafe, instrs, graph, iv);
          forall k | 0 <= k < |ivs|
            ensures ivs[k].producer < p
          {
            assert ivs[k] in ivs;
          }
          ivs := ivs + [iv];
        }
      }
    }
    forall iv
      ensures iv in ivs <==> Protects(minSafe, instrs, graph, iv)
    {
      IntervalMeaning(minSafe, instrs, graph, iv);
    }
  }

  // ---------- Share groups ----------

  const MAX_SHAREABLE_GROUP_SIZE: nat := 3

  predicate SameClass(a: BarrierInterval, b: BarrierInterval) {
    a.insKey == b.insKey && a.direction == b.direction
  }

  /** The group of interval `i` and its position inside that group. */
  function GroupAt(ivs: seq<BarrierInterval>, i: nat): (g: (nat, nat))
    requires i < |ivs|
    ensures g.1 < MAX_SHAREABLE_GROUP_SIZE && g.1 <= i && g.0 <= i
  {
    if i == 0 then (0, 0)
    else
      var (g, k) := GroupAt(ivs, i - 1);
      if SameClass(ivs[i], ivs[i - 1]) && k + 1 < MAX_SHAREABLE_GROUP_SIZE then (g, k + 1) else (g + 1, 0)
  }

  predicate AreShareGroups(ivs: seq<BarrierInterval>, group: seq<nat>) {
    |group| == |ivs| && forall i :: 0 <= i < |ivs| ==> group[i] == GroupAt(ivs, i).0
  }

  lemma GroupAtStep(ivs: seq<BarrierInterval>, i: nat, current: nat, runLength: nat)
    requires 0 < i < |ivs| && runLength > 0 && GroupAt(ivs, i - 1) == (current, runLength - 1)
    ensures GroupAt(ivs, i) ==
            if SameClass(ivs[i], ivs[i - 1]) && runLength < MAX_SHAREABLE_GROUP_SIZE then (current, runLength)
            else (current + 1, 0)
  {
  }

  /** Interval `s` differs from the one before it in key or direction. */
  predicate StartsRun(ivs: seq<BarrierInterval>, s: nat)
    requires s < |ivs|
  {
    s == 0 || ivs[s].insKey != ivs[s - 1].insKey || ivs[s].direction != ivs[s - 1].direction
  }

  /** From `s` on, intervals up to `i` have one key and direction, others than the interval before. */
  predicate OneRun(ivs: seq<BarrierInterval>, s: nat, i: nat)
    requires s <= i < |ivs|
  {
    StartsRun(ivs, s) && forall k :: s < k <= i ==> !StartsRun(ivs, k)
  }

  /** Along a run there is a new group after every three intervals. */
  lemma {:induction false} RunGroups(ivs: seq<BarrierInterval>, s: nat, i: nat)
    requires s <= i < |ivs| && OneRun(ivs, s, i)
    ensures GroupAt(ivs, i) == (GroupAt(ivs, s).0 + (i - s) / 3, (i - s) % 3)
  {
    if s < i {
      RunGroups(ivs, s, i - 1);
      assert !StartsRun(ivs, i);
    }
  }

  /** A change of key or direction starts a new group. */
  lemma RunStarts(ivs: seq<BarrierInterval>, s: nat)
    requires s < |ivs| && StartsRun(ivs, s)
    ensures GroupAt(ivs, s) == (if s == 0 then 0 else GroupAt(ivs, s - 1).0 + 1, 0)
  {
  }

  lemma GroupsMeaning(ivs: seq<BarrierInterval>, group: seq<nat>)
    requires AreShareGroups(ivs, group)
    ensures forall s: nat :: s < |ivs| && StartsRun(ivs, s) ==> group[s] == if s == 0 then 0 else group[s - 1] + 1
    ensures forall s: nat, i: nat {:trigger OneRun(ivs, s, i)} ::
              s <= i < |ivs| && OneRun(ivs, s, i) ==> group[i] == group[s] + (i - s) / 3
  {
    forall s: nat, i: nat {:trigger OneRun(ivs, s, i)} | s <= i < |ivs| && OneRun(ivs, s, i)
      ensures group[i] == group[s] + (i - s) / 3
    {
      RunGroups(ivs, s, i);
    }
    forall s: nat | s < |ivs| && StartsRun(ivs, s)
      ensures group[s] == if s == 0 then 0 else group[s - 1] + 1
    {
      RunStarts(ivs, s);
    }
  }

  /** The loop that numbers the groups. */
  method NumberGroups(ivs: seq<BarrierInterval>) returns (group: seq<nat>)
    ensures AreShareGroups(ivs, group)
  {
    group := [];
    var current: nat := 0;
    var runLength: nat := 0;
    for i: nat := 0 to |ivs|
      invariant |group| == i
      invariant forall k :: 0 <= k < i ==> group[k] == GroupAt(ivs, k).0
      invariant i == 0 ==> current == 0 && runLength == 0
      invariant i > 0 ==> runLength > 0 && GroupAt(ivs, i - 1) == (current, runLength - 1)
    {
      if i > 0 {
        GroupAtStep(ivs, i, current, runLength);
      }
      var continuesRun := i > 0 && SameClass(ivs[i], ivs[i - 1]) && runLength < MAX_SHAREABLE_GROUP_SIZE;
      if !continuesRun {
        if i > 0 {
          current := current + 1;
        }
        runLength := 0;
      }
      group := group + [current];
      runLength := runLength + 1;
    }
  }

  method ComputeShareGroups(ivs: seq<BarrierInterval>) returns (group: seq<nat>)
    ensures AreShareGroups(ivs, group)
    ensures forall s: nat :: s < |ivs| && StartsRun(ivs, s) ==> group[s] == if s == 0 then 0 else group[s - 1] + 1
    ensures forall s: nat, i: nat {:trigger OneRun(ivs, s, i)} ::
              s <= i < |ivs| && OneRun(ivs, s, i) ==> group[i] == group[s] + (i - s) / 3
  {
    group := NumberGroups(ivs);
    GroupsMeaning(ivs, group);
  }

  /** Groups never go back, and members of one group are consecutive, of one class, and few. */
  lemma {:induction false} GroupMembers(ivs: seq<BarrierInterval>, i: nat, j: nat)
    requires i <= j < |ivs|
    ensures GroupAt(ivs, i).0 <= GroupAt(ivs, j).0
    ensures GroupAt(ivs, i).0 == GroupAt(ivs, j).0 ==>
              && SameClass(ivs[i], ivs[j])
              && j - i == GroupAt(ivs, j).1 - GroupAt(ivs, i).1
              && j - i < MAX_SHAREABLE_GROUP_SIZE
    decreases j
  {
    if i < j {
      GroupMembers(ivs, i, j - 1);
    }
  }
}
