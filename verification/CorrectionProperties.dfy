/** Corrected kernels over whole runs. */
module CorrectionProperties {
  /**
   What holds of corrected control codes over whole runs: no run of the scoreboard machine goes
   wrong, slot queues stay small and uniform, and correcting twice changes nothing.
   */

  import opened ControlCode
  import opened DecodedInstructions
  import opened ControlFlow
  import opened HazardGraph
  import opened Scoreboard
  import opened ScoreboardMachine
  import opened BarrierIntervals
  import opened SlotAssignment
  import opened Correction

  // ---------- Safety of every run ----------

  /**
   After correction no run of the scoreboard machine issues the consumer of a barrier-protected
   edge while its producer is outstanding.
   */
  lemma CorrectedRunsAreSafe(instrs: seq<DecodedInstruction>, plan: Plan, codes: seq<Word32>, run: seq<State>,
                             e: HazardEdge)
    requires AllValid(instrs) && IsPlan(instrs, plan) && EnoughSlots(plan) && AreCorrectedCodes(instrs, plan, codes)
    requires e in plan.graph
    requires var producer := Recode(instrs, codes)[e.producer];
             WriteOpen(producer, e.kind) || ReadOpen(producer, e.kind)
    requires IsRun(Recode(instrs, codes), run)
    requires run[|run| - 1].pc == e.consumer && CanIssue(Recode(instrs, codes), run[|run| - 1])
    ensures e.producer !in run[|run| - 1].outstanding
  {
    var corrected := Recode(instrs, codes);
    ProtectsMeaning(corrected[e.producer], e.kind);
    CorrectionClosesEverything(instrs, plan, codes);
    OvertakenIffNotRetired(corrected, e.producer, e.consumer);
    assert Reachable(corrected, run[|run| - 1]);
  }

  // ---------- Slot queues ----------

  /** A pending producer owns an interval of that slot whose first consumer has not been reached. */
  lemma PendingHasInterval(instrs: seq<DecodedInstruction>, plan: Plan, codes: seq<Word32>, s: nat, n: nat, p: nat)
    returns (k: nat)
    requires AllValid(instrs) && IsPlan(instrs, plan) && EnoughSlots(plan) && AreCorrectedCodes(instrs, plan, codes)
    requires n <= |instrs| && p in PendingAfter(Recode(instrs, codes), s, n)
    ensures k < |plan.ivs| && plan.ivs[k].producer == p && plan.colors[k] == s
    ensures p < n <= plan.ivs[k].firstConsumer
  {
    var corrected := Recode(instrs, codes);
    PendingMeaning(corrected, s, n, p);
    var direction := instrs[p].latency.barrier;
    CorrectedBarrierField(instrs, plan, codes, p, direction);
    BarSource(plan.ivs, plan.colors, p, direction, |plan.ivs|);
    k :| 0 <= k < |plan.ivs| && plan.ivs[k].producer == p && plan.ivs[k].direction == direction
         && plan.colors[k] == Slot(plan, p, direction);
    if plan.ivs[k].firstConsumer <= n - 1 {
      IntervalIsRetired(instrs, plan, codes, k, n - 1);
    }
  }

  /** Overlapping intervals on one slot share a group. */
  lemma {:induction false} SameSlotSameGroup(ivs: seq<BarrierInterval>, group: seq<nat>, colors: seq<nat>, i: nat,
                                             j: nat)
    requires SortedByProducer(ivs) && AreShareGroups(ivs, group) && IsFirstFit(ivs, group, colors)
    requires i < |ivs| && j < |ivs| && ivs[i].producer <= ivs[j].producer < ivs[i].firstConsumer
    requires colors[i] == colors[j] && ivs[j].producer < ivs[j].firstConsumer
    ensures i <= j && group[i] == group[j]
    ensures SameClass(ivs[i], ivs[j]) && j - i < MAX_SHAREABLE_GROUP_SIZE
  {
    assert i <= j;
    assert i < j ==> Overlaps(ivs[i], ivs[j]);
    GroupMembers(ivs, i, j);
  }

  /** Producers pending together on one slot share a group. */
  lemma {:induction false} PendingTogether(instrs: seq<DecodedInstruction>, plan: Plan, codes: seq<Word32>, s: nat,
                                           n: nat, p: nat, q: nat)
    returns (i: nat, j: nat)
    requires AllValid(instrs) && IsPlan(instrs, plan) && EnoughSlots(plan) && AreCorrectedCodes(instrs, plan, codes)
    requires n <= |instrs| && p <= q
    requires p in PendingAfter(Recode(instrs, codes), s, n) && q in PendingAfter(Recode(instrs, codes), s, n)
    ensures i <= j < |plan.ivs| && plan.ivs[i].producer == p && plan.ivs[j].producer == q
    ensures plan.group[i] == plan.group[j]
    ensures SameClass(plan.ivs[i], plan.ivs[j]) && j - i < MAX_SHAREABLE_GROUP_SIZE
  {
    i := PendingHasInterval(instrs, plan, codes, s, n, p);
    j := PendingHasInterval(instrs, plan, codes, s, n, q);
    SameSlotSameGroup(plan.ivs, plan.group, plan.colors, i, j);
  }

  lemma {:induction false} PendingAscends(instrs: seq<DecodedInstruction>, s: nat, n: nat)
    requires n <= |instrs|
    ensures forall a :: 0 <= a < |PendingAfter(instrs, s, n)| ==> PendingAfter(instrs, s, n)[a] < n
    ensures forall a, b :: 0 <= a < b < |PendingAfter(instrs, s, n)| ==>
              PendingAfter(instrs, s, n)[a] < PendingAfter(instrs, s, n)[b]
  {
    if n > 0 {
      PendingAscends(instrs, s, n - 1);
      var kept := if instrs[n - 1].ctrlCode.WaitsOn(s) then [] else PendingAfter(instrs, s, n - 1);
      assert forall a :: 0 <= a < |kept| ==> kept[a] < n - 1;
      assert PendingAfter(instrs, s, n) == kept || PendingAfter(instrs, s, n) == kept + [n - 1];
    }
  }

  /**
   After every instruction of the corrected kernel, each slot's queue holds at most three
   producers, all of one opcode key and direction, and none of them has reached its first
   consumer.
   */
  lemma {:induction false} CorrectedQueues(instrs: seq<DecodedInstruction>, plan: Plan, codes: seq<Word32>, s: nat,
                                           n: nat)
    requires AllValid(instrs) && IsPlan(instrs, plan) && EnoughSlots(plan) && AreCorrectedCodes(instrs, plan, codes)
    requires n <= |instrs|
    ensures |PendingAfter(Recode(instrs, codes), s, n)| <= MAX_SHAREABLE_GROUP_SIZE
    ensures var pending := PendingAfter(Recode(instrs, codes), s, n);
            forall p, q :: p in pending && q in pending ==>
              p < n && q < n && instrs[p].insKey == instrs[q].insKey && instrs[p].latency == instrs[q].latency
    ensures var pending := PendingAfter(Recode(instrs, codes), s, n);
            forall p, c :: p in pending && IsFirstConsumer(instrs, plan.graph, p, c) ==> n <= c
  {
    var pending := PendingAfter(Recode(instrs, codes), s, n);
    PendingAscends(Recode(instrs, codes), s, n);
    if |pending| > 3 {
      AtMostThree(instrs, plan, codes, s, n, pending);
    }
    forall p, q | p in pending && q in pending
      ensures p < n && q < n && instrs[p].insKey == instrs[q].insKey && instrs[p].latency == instrs[q].latency
    {
      var i, j;
      if p <= q {
        i, j := PendingTogether(instrs, plan, codes, s, n, p, q);
      } else {
        i, j := PendingTogether(instrs, plan, codes, s, n, q, p);
      }
      assert plan.ivs[i] in plan.ivs && plan.ivs[j] in plan.ivs;
      assert IsInterval(plan.minSafe, instrs, plan.graph, plan.ivs[i]) &&
             IsInterval(plan.minSafe, instrs, plan.graph, plan.ivs[j]);
    }
    forall p, c | p in pending && IsFirstConsumer(instrs, plan.graph, p, c)
      ensures n <= c
    {
      var k := PendingHasInterval(instrs, plan, codes, s, n, p);
      assert plan.ivs[k] in plan.ivs && IsInterval(plan.minSafe, instrs, plan.graph, plan.ivs[k]);
      assert IsFirstConsumer(instrs, plan.graph, p, plan.ivs[k].firstConsumer);
    }
  }

  /** The intervals of pending producers, in the same order. */
  lemma {:induction false} PendingIntervals(instrs: seq<DecodedInstruction>, plan: Plan, codes: seq<Word32>, s: nat,
                                            n: nat, pending: seq<nat>)
    returns (ks: seq<nat>)
    requires AllValid(instrs) && IsPlan(instrs, plan) && EnoughSlots(plan) && AreCorrectedCodes(instrs, plan, codes)
    requires n <= |instrs|
    requires forall a :: 0 <= a < |pending| ==> pending[a] in PendingAfter(Recode(instrs, codes), s, n)
    ensures |ks| == |pending|
    ensures forall a :: 0 <= a < |ks| ==> ks[a] < |plan.ivs| && plan.ivs[ks[a]].producer == pending[a]
  {
    ks := [];
    if pending != [] {
      var front := pending[..|pending| - 1];
      var last := pending[|pending| - 1];
      assert last in PendingAfter(Recode(instrs, codes), s, n);
      var rest := PendingIntervals(instrs, plan, codes, s, n, front);
      var k := PendingHasInterval(instrs, plan, codes, s, n, last);
      ks := rest + [k];
    }
  }

  lemma AscendingIndices(ivs: seq<BarrierInterval>, ks: seq<nat>)
    requires SortedByProducer(ivs)
    requires forall a :: 0 <= a < |ks| ==> ks[a] < |ivs|
    requires forall a, b :: 0 <= a < b < |ks| ==> ivs[ks[a]].producer < ivs[ks[b]].producer
    ensures forall a, b :: 0 <= a < b < |ks| ==> ks[a] < ks[b]
  {
  }

  lemma {:induction false} AtMostThree(instrs: seq<DecodedInstruction>, plan: Plan, codes: seq<Word32>, s: nat, n: nat,
                                       pending: seq<nat>)
    requires AllValid(instrs) && IsPlan(instrs, plan) && EnoughSlots(plan) && AreCorrectedCodes(instrs, plan, codes)
    requires n <= |instrs| && pending == PendingAfter(Recode(instrs, codes), s, n)
    requires forall a, b :: 0 <= a < b < |pending| ==> pending[a] < pending[b]
    ensures |pending| <= 3
  {
    if pending != [] {
      var ks := PendingIntervals(instrs, plan, codes, s, n, pending);
      AscendingIndices(plan.ivs, ks);
      var i, j := PendingTogether(instrs, plan, codes, s, n, pending[0], pending[|pending| - 1]);
      SameProducer(plan.ivs, i, ks[0]);
      SameProducer(plan.ivs, j, ks[|ks| - 1]);
      Spread(ks);
    }
  }

  lemma SameProducer(ivs: seq<BarrierInterval>, i: nat, j: nat)
    requires SortedByProducer(ivs) && i < |ivs| && j < |ivs| && ivs[i].producer == ivs[j].producer
    ensures i == j
  {
  }

  lemma {:induction false} Spread(k: seq<nat>)
    requires |k| >= 1 && forall a, b :: 0 <= a < b < |k| ==> k[a] < k[b]
    ensures k[|k| - 1] - k[0] >= |k| - 1
  {
    if |k| > 1 {
      Spread(k[..|k| - 1]);
    }
  }

  // ---------- Idempotence ----------

  /** The largest margin that 32 bits hold. */
  const MAX_MARGIN: nat := 0xffff_ffff

  /**
   Raising the stall count of an unprotected producer from 0 to 1 makes its margin wrap around to
   zero, although it was large enough before.
   */
  ghost predicate MarginWraps(instrs: seq<DecodedInstruction>, plan: Plan, p: nat, f: nat)
    requires GraphOver(|instrs|, plan.graph)
  {
    && p < f < |instrs| && instrs[p].latency.Variable? && IsFirstConsumer(instrs, plan.graph, p, f)
    && NeedsStall(instrs, plan.graph, p) && instrs[p].ctrlCode.GetStallCount() == 0
    && BarrierField(instrs[p].ctrlCode, instrs[p].latency.barrier) == -1
    && Margin(instrs[p], p, f) == MAX_MARGIN && plan.minSafe(instrs[p].insKey) <= MAX_MARGIN
  }

  ghost predicate SomeMarginWraps(instrs: seq<DecodedInstruction>, plan: Plan)
    requires GraphOver(|instrs|, plan.graph)
  {
    exists p, f :: MarginWraps(instrs, plan, p, f)
  }

  /** No margin wraps in kernels of at most 2^32 instructions. */
  lemma SmallKernelsDoNotWrap(instrs: seq<DecodedInstruction>, plan: Plan)
    requires GraphOver(|instrs|, plan.graph) && |instrs| <= 0x1_0000_0000
    ensures !SomeMarginWraps(instrs, plan)
  {
  }

  lemma RecodeKeepsRest(instrs: seq<DecodedInstruction>, codes: seq<Word32>)
    requires AllValid(instrs) && |codes| == |instrs|
    ensures AllValid(Recode(instrs, codes))
    ensures forall i, r :: 0 <= i < |instrs| ==> (Reads(Recode(instrs, codes)[i], r) <==> Reads(instrs[i], r))
    ensures forall i, r :: 0 <= i < |instrs| ==> (Writes(Recode(instrs, codes)[i], r) <==> Writes(instrs[i], r))
  {
    var recoded := Recode(instrs, codes);
    forall i, r | 0 <= i < |instrs|
      ensures Reads(recoded[i], r) <==> Reads(instrs[i], r)
      ensures Writes(recoded[i], r) <==> Writes(instrs[i], r)
    {
      assert GuardRegister(recoded[i]) == GuardRegister(instrs[i]);
      assert forall k :: 0 <= k < |instrs[i].roles| ==> (OccursAt(recoded[i], k, r) <==> OccursAt(instrs[i], k, r));
    }
  }

  /** The address index depends on addresses only. */
  lemma {:induction false} AddressIndexSame(xs: seq<DecodedInstruction>, ys: seq<DecodedInstruction>, n: nat)
    requires |xs| == |ys| && n <= |xs| && forall i :: 0 <= i < |xs| ==> xs[i].address == ys[i].address
    ensures AddressIndex(xs, n) == AddressIndex(ys, n)
  {
    if n > 0 {
      AddressIndexSame(xs, ys, n - 1);
    }
  }

  lemma {:induction false} BranchTargetSame(xs: seq<DecodedInstruction>, ys: seq<DecodedInstruction>, i: nat)
    requires |xs| == |ys| && forall j :: 0 <= j < |xs| ==> xs[j].address == ys[j].address
    requires i < |xs| && xs[i].insVals == ys[i].insVals != [] && xs[i].insModi == ys[i].insModi
    ensures BranchTarget(xs, i) == BranchTarget(ys, i)
  {
    AddressIndexSame(xs, ys, |xs|);
    LengthSame(xs, ys);
    TargetSame(xs[i], ys[i], i, InstructionLength(xs), AddressIndex(xs, |xs|));
  }

  lemma LengthSame(xs: seq<DecodedInstruction>, ys: seq<DecodedInstruction>)
    requires |xs| == |ys| && forall j :: 0 <= j < |xs| ==> xs[j].address == ys[j].address
    ensures InstructionLength(xs) == InstructionLength(ys)
  {
  }

  lemma {:induction false} SuccessorsSame(instrs: seq<DecodedInstruction>, codes: seq<Word32>, i: nat)
    requires AllValid(instrs) && |codes| == |instrs| && AllValid(Recode(instrs, codes)) && i < |instrs|
    ensures SuccessorsOf(Recode(instrs, codes), i) == SuccessorsOf(instrs, i)
  {
    var recoded := Recode(instrs, codes);
    assert instrs[i].Valid();
    BranchTargetSame(recoded, instrs, i);
    assert GuardKindOf(recoded[i]) == GuardKindOf(instrs[i]);
    assert FallThrough(recoded, i) == FallThrough(instrs, i);
    assert recoded[i].insKey == instrs[i].insKey;
  }

  /** The hazard graph does not depend on control codes. */
  lemma GraphSame(instrs: seq<DecodedInstruction>, codes: seq<Word32>, graph: set<HazardEdge>)
    requires AllValid(instrs) && |codes| == |instrs| && IsGraphOf(instrs, graph)
    ensures AllValid(Recode(instrs, codes)) && IsGraphOf(Recode(instrs, codes), graph)
  {
    var recoded := Recode(instrs, codes);
    RecodeKeepsRest(instrs, codes);
    forall i | 0 <= i < |instrs|
      ensures SuccessorsOf(recoded, i) == SuccessorsOf(instrs, i)
    {
      SuccessorsSame(instrs, codes, i);
    }
    assert CfgOf(recoded) == CfgOf(instrs);
    var succ := CfgOf(instrs);
    forall e: HazardEdge
      ensures IsHazard(recoded, succ, e) <==> IsHazard(instrs, succ, e)
    {
      HazardSame(instrs, codes, succ, e);
    }
  }

  lemma HazardSame(instrs: seq<DecodedInstruction>, codes: seq<Word32>, succ: seq<seq<nat>>, e: HazardEdge)
    requires AllValid(instrs) && |codes| == |instrs| && AllValid(Recode(instrs, codes)) && |succ| == |instrs|
    requires forall i, r :: 0 <= i < |instrs| ==> (Reads(Recode(instrs, codes)[i], r) <==> Reads(instrs[i], r))
    requires forall i, r :: 0 <= i < |instrs| ==> (Writes(Recode(instrs, codes)[i], r) <==> Writes(instrs[i], r))
    ensures IsHazard(Recode(instrs, codes), succ, e) <==> IsHazard(instrs, succ, e)
  {
    var recoded := Recode(instrs, codes);
    assert forall path :: HazardPath(recoded, succ, path, e) <==> HazardPath(instrs, succ, path, e);
  }

  /** One more stall cycle makes a margin too small exactly if it wraps around. */
  lemma {:induction false} MarginRaised(minSafe: MarginTable, was: DecodedInstruction, now: DecodedInstruction, p: nat,
                                        f: nat)
    requires p < f && now.insKey == was.insKey && Margin(was, p, f) >= minSafe(was.insKey)
    requires now.ctrlCode.stall == was.ctrlCode.stall || (was.ctrlCode.stall == 0 && now.ctrlCode.stall == 1)
    ensures Margin(now, p, f) < minSafe(was.insKey) <==>
            now.ctrlCode.stall > was.ctrlCode.stall && Margin(was, p, f) == MAX_MARGIN
  {
  }

  /** A producer without an interval needs a slot after correction exactly if its margin wraps. */
  lemma {:induction false} MarginAfter(instrs: seq<DecodedInstruction>, plan: Plan, codes: seq<Word32>, p: nat, f: nat)
    requires AllValid(instrs) && IsPlan(instrs, plan) && EnoughSlots(plan) && AreCorrectedCodes(instrs, plan, codes)
    requires p < f < |instrs| && IsFirstConsumer(instrs, plan.graph, p, f) && instrs[p].latency.Variable?
    requires !NeedsSlot(plan.minSafe, instrs[p], p, f)
    ensures Margin(Recode(instrs, codes)[p], p, f) < plan.minSafe(instrs[p].insKey) <==> MarginWraps(instrs, plan, p, f)
  {
    StallAfter(instrs, plan, codes, p);
    MarginRaised(plan.minSafe, instrs[p], Recode(instrs, codes)[p], p, f);
  }

  /** A first consumer needs a slot after correction as it did before, unless its producer's margin wraps. */
  lemma {:induction false} NeedsSlotSame(instrs: seq<DecodedInstruction>, plan: Plan, codes: seq<Word32>, p: nat,
                                         f: nat)
    requires AllValid(instrs) && IsPlan(instrs, plan) && EnoughSlots(plan) && AreCorrectedCodes(instrs, plan, codes)
    requires p < f < |instrs| && IsFirstConsumer(instrs, plan.graph, p, f) && instrs[p].latency.Variable?
    ensures NeedsSlot(plan.minSafe, Recode(instrs, codes)[p], p, f) <==>
            NeedsSlot(plan.minSafe, instrs[p], p, f) || MarginWraps(instrs, plan, p, f)
    ensures MarginWraps(instrs, plan, p, f) ==> !NeedsSlot(plan.minSafe, instrs[p], p, f)
  {
    var direction := instrs[p].latency.barrier;
    CorrectedBarrierField(instrs, plan, codes, p, direction);
    if NeedsSlot(plan.minSafe, instrs[p], p, f) {
      var iv := BarrierInterval(p, f, direction, instrs[p].insKey);
      assert IsInterval(plan.minSafe, instrs, plan.graph, iv) && iv in plan.ivs;
      var k :| 0 <= k < |plan.ivs| && plan.ivs[k] == iv;
      BarMeaning(plan.ivs, plan.colors, p, direction, |plan.ivs|, k);
    } else {
      NoIntervalAt(instrs, plan, p, f);
      NoIntervalNoSlot(instrs, plan, p, direction);
      MarginAfter(instrs, plan, codes, p, f);
    }
  }

  /** Correcting keeps the nearest consumers and drops no interval; it adds those whose margins wrap. */
  lemma {:induction false} IntervalsAfter(instrs: seq<DecodedInstruction>, plan: Plan, codes: seq<Word32>,
                                          iv: BarrierInterval)
    requires AllValid(instrs) && IsPlan(instrs, plan) && EnoughSlots(plan) && AreCorrectedCodes(instrs, plan, codes)
    ensures IsInterval(plan.minSafe, Recode(instrs, codes), plan.graph, iv) <==>
            || IsInterval(plan.minSafe, instrs, plan.graph, iv)
            || (MarginWraps(instrs, plan, iv.producer, iv.firstConsumer) &&
                iv == IntervalOf(instrs, iv.producer, iv.firstConsumer))
    ensures MarginWraps(instrs, plan, iv.producer, iv.firstConsumer) ==>
            !IsInterval(plan.minSafe, instrs, plan.graph, iv)
  {
    var recoded := Recode(instrs, codes);
    var p, f := iv.producer, iv.firstConsumer;
    assert forall e :: e in plan.graph ==> (EligibleEdge(recoded, e) <==> EligibleEdge(instrs, e));
    assert IsFirstConsumer(recoded, plan.graph, p, f) <==> IsFirstConsumer(instrs, plan.graph, p, f);
    if IsFirstConsumer(instrs, plan.graph, p, f) && p < f < |instrs| && instrs[p].latency.Variable? {
      NeedsSlotSame(instrs, plan, codes, p, f);
    }
  }

  /** The interval that a producer and its nearest consumer would make. */
  ghost function IntervalOf(instrs: seq<DecodedInstruction>, p: nat, f: nat): BarrierInterval
    requires p < |instrs| && instrs[p].latency.Variable?
  {
    BarrierInterval(p, f, instrs[p].latency.barrier, instrs[p].insKey)
  }

  /** The plan of a kernel is also the plan of its corrected version, exactly if no margin wraps. */
  lemma {:induction false} PlanAfter(instrs: seq<DecodedInstruction>, plan: Plan, codes: seq<Word32>)
    requires AllValid(instrs) && IsPlan(instrs, plan) && EnoughSlots(plan) && AreCorrectedCodes(instrs, plan, codes)
    ensures AllValid(Recode(instrs, codes)) && (IsPlan(Recode(instrs, codes), plan) <==> !SomeMarginWraps(instrs, plan))
  {
    var recoded := Recode(instrs, codes);
    GraphSame(instrs, codes, plan.graph);
    if SomeMarginWraps(instrs, plan) {
      var p, f :| MarginWraps(instrs, plan, p, f);
      IntervalsAfter(instrs, plan, codes, IntervalOf(instrs, p, f));
    } else {
      forall iv
        ensures IsInterval(plan.minSafe, recoded, plan.graph, iv) <==> IsInterval(plan.minSafe, instrs, plan.graph, iv)
      {
        IntervalsAfter(instrs, plan, codes, iv);
      }
    }
  }

  /** A kernel has only one plan. */
  lemma PlanUnique(instrs: seq<DecodedInstruction>, p1: Plan, p2: Plan)
    requires AllValid(instrs) && IsPlan(instrs, p1) && IsPlan(instrs, p2) && p1.minSafe == p2.minSafe
    ensures p1 == p2
  {
    assert p1.graph == p2.graph;
    IntervalsUnique(p1.ivs, p2.ivs);
    assert p1.group == p2.group;
    FirstFitUnique(p1.ivs, p1.group, p1.colors, p2.colors, |p1.ivs|);
    assert p1.colors[..|p1.ivs|] == p1.colors && p2.colors[..|p1.ivs|] == p2.colors;
  }

  /**
   Correcting is idempotent exactly if no margin wraps around: whatever plan and codes the corrected
   kernel gets, they are then the plan and the codes it already has, and otherwise the plan differs.
   */
  lemma {:induction false} CorrectionIsIdempotent(instrs: seq<DecodedInstruction>, plan: Plan, codes: seq<Word32>,
                                                  plan2: Plan, codes2: seq<Word32>)
    requires AllValid(instrs) && IsPlan(instrs, plan) && EnoughSlots(plan) && AreCorrectedCodes(instrs, plan, codes)
    requires AllValid(Recode(instrs, codes)) && IsPlan(Recode(instrs, codes), plan2) && plan2.minSafe == plan.minSafe
    requires AreCorrectedCodes(Recode(instrs, codes), plan2, codes2)
    ensures plan2 == plan <==> !SomeMarginWraps(instrs, plan)
    ensures plan2 == plan ==> codes2 == codes
    ensures EnoughSlots(plan2) ==> (codes2 == codes <==> !SomeMarginWraps(instrs, plan))
  {
    PlanAfter(instrs, plan, codes);
    if !SomeMarginWraps(instrs, plan) {
      PlanUnique(Recode(instrs, codes), plan2, plan);
    } else if EnoughSlots(plan2) {
      var p, f :| MarginWraps(instrs, plan, p, f);
      WrappingOpensBarrier(instrs, plan, codes, plan2, codes2, p, f);
    }
    if plan2 == plan {
      SamePlanSameCodes(instrs, plan, codes, codes2);
    }
  }

  /** A producer whose margin wraps has its barrier closed by the first correction, and opened by the second. */
  lemma {:induction false} WrappingOpensBarrier(instrs: seq<DecodedInstruction>, plan: Plan, codes: seq<Word32>,
                                                plan2: Plan, codes2: seq<Word32>, p: nat, f: nat)
    requires AllValid(instrs) && IsPlan(instrs, plan) && EnoughSlots(plan) && AreCorrectedCodes(instrs, plan, codes)
    requires AllValid(Recode(instrs, codes)) && IsPlan(Recode(instrs, codes), plan2) && plan2.minSafe == plan.minSafe
    requires EnoughSlots(plan2) && AreCorrectedCodes(Recode(instrs, codes), plan2, codes2)
    requires MarginWraps(instrs, plan, p, f)
    ensures codes2 != codes
  {
    ClosedFirst(instrs, plan, codes, p, f);
    OpenedSecond(instrs, plan, codes, plan2, codes2, p, f);
  }

  lemma {:induction false} ClosedFirst(instrs: seq<DecodedInstruction>, plan: Plan, codes: seq<Word32>, p: nat, f: nat)
    requires AllValid(instrs) && IsPlan(instrs, plan) && EnoughSlots(plan) && AreCorrectedCodes(instrs, plan, codes)
    requires MarginWraps(instrs, plan, p, f)
    ensures BarrierField(SplitCode(codes[p]), instrs[p].latency.barrier) == -1
  {
    NeedsSlotSame(instrs, plan, codes, p, f);
    NoIntervalAt(instrs, plan, p, f);
    NoIntervalNoSlot(instrs, plan, p, instrs[p].latency.barrier);
    CorrectedBarrierField(instrs, plan, codes, p, instrs[p].latency.barrier);
  }

  lemma {:induction false} OpenedSecond(instrs: seq<DecodedInstruction>, plan: Plan, codes: seq<Word32>, plan2: Plan,
                                        codes2: seq<Word32>,
                                        p: nat, f: nat)
    requires AllValid(instrs) && IsPlan(instrs, plan) && EnoughSlots(plan) && AreCorrectedCodes(instrs, plan, codes)
    requires AllValid(Recode(instrs, codes)) && IsPlan(Recode(instrs, codes), plan2) && plan2.minSafe == plan.minSafe
    requires EnoughSlots(plan2) && AreCorrectedCodes(Recode(instrs, codes), plan2, codes2)
    requires MarginWraps(instrs, plan, p, f)
    ensures BarrierField(SplitCode(codes2[p]), instrs[p].latency.barrier) != -1
  {
    var direction, iv := instrs[p].latency.barrier, IntervalOf(instrs, p, f);
    GraphSame(instrs, codes, plan.graph);
    assert plan2.graph == plan.graph;
    IntervalsAfter(instrs, plan, codes, iv);
    var k := IntervalIndex(Recode(instrs, codes), plan2, iv);
    BarMeaning(plan2.ivs, plan2.colors, p, direction, |plan2.ivs|, k);
    CorrectedBarrierField(Recode(instrs, codes), plan2, codes2, p, direction);
  }

  lemma {:induction false} SamePlanSameCodes(instrs: seq<DecodedInstruction>, plan: Plan, codes: seq<Word32>,
                                             codes2: seq<Word32>)
    requires AllValid(instrs) && IsPlan(instrs, plan) && EnoughSlots(plan) && AreCorrectedCodes(instrs, plan, codes)
    requires AreCorrectedCodes(Recode(instrs, codes), plan, codes2)
    ensures codes2 == codes
  {
    var recoded := Recode(instrs, codes);
    forall i | 0 <= i < |instrs|
      ensures codes2[i] == codes[i]
    {
      RecodedFields(instrs, plan, codes, i);
      assert forall e :: e in plan.graph ==> (EligibleEdge(recoded, e) <==> EligibleEdge(instrs, e));
      assert NeedsStall(recoded, plan.graph, i) <==> NeedsStall(instrs, plan.graph, i);
      assert CorrectedFields(recoded, plan, i) == CorrectedFields(instrs, plan, i);
    }
  }

  /** Yield flags stay. */
  lemma YieldAfter(instrs: seq<DecodedInstruction>, plan: Plan, codes: seq<Word32>, i: nat)
    requires AllValid(instrs) && IsPlan(instrs, plan) && EnoughSlots(plan) && AreCorrectedCodes(instrs, plan, codes)
    requires i < |instrs|
    ensures Recode(instrs, codes)[i].ctrlCode.IsYield() <==> instrs[i].ctrlCode.IsYield()
  {
    RecodedFields(instrs, plan, codes, i);
  }

  /** A producer with a protectable consumer whose barrier was open has an interval. */
  lemma OpenHasInterval(instrs: seq<DecodedInstruction>, plan: Plan, e: HazardEdge) returns (k: nat)
    requires AllValid(instrs) && IsPlan(instrs, plan)
    requires e in plan.graph && EligibleEdge(instrs, e) && Opens(instrs[e.producer])
    ensures k < |plan.ivs| && plan.ivs[k].producer == e.producer && plan.ivs[k].firstConsumer < |instrs|
  {
    var f := FirstConsumerExists(instrs, plan.graph, e);
    var p := e.producer;
    k := IntervalIndex(instrs, plan, BarrierInterval(p, f, instrs[p].latency.barrier, instrs[p].insKey));
  }

  /**
   Stalls never drop, by at most one step up, yield flags stay, and a producer with a protectable consumer whose
   barrier was open keeps one open.
   */
  lemma CorrectionIsConservative(instrs: seq<DecodedInstruction>, plan: Plan, codes: seq<Word32>, i: nat)
    requires AllValid(instrs) && IsPlan(instrs, plan) && EnoughSlots(plan) && AreCorrectedCodes(instrs, plan, codes)
    requires i < |instrs|
    ensures var was, now := instrs[i].ctrlCode, Recode(instrs, codes)[i].ctrlCode;
            && now.GetStallCount() >= was.GetStallCount()
            && (now.GetStallCount() > was.GetStallCount() ==> was.GetStallCount() == 0 && now.GetStallCount() == 1)
            && (now.IsYield() <==> was.IsYield())
            && (Opens(instrs[i]) && (exists e :: e in plan.graph && e.producer == i && EligibleEdge(instrs, e)) ==>
                  Opens(Recode(instrs, codes)[i]))
  {
    StallAfter(instrs, plan, codes, i);
    YieldAfter(instrs, plan, codes, i);
    if Opens(instrs[i]) && exists e :: e in plan.graph && e.producer == i && EligibleEdge(instrs, e) {
      var e :| e in plan.graph && e.producer == i && EligibleEdge(instrs, e);
      var k := OpenHasInterval(instrs, plan, e);
      IntervalIsRetired(instrs, plan, codes, k, plan.ivs[k].firstConsumer);
    }
  }

  /** At most six intervals in flight at any moment are always enough for a correction. */
  lemma SixInFlightSuffice(instrs: seq<DecodedInstruction>, plan: Plan)
    requires AllValid(instrs) && IsPlan(instrs, plan)
    requires forall x: nat :: |LiveAt(plan.ivs, x)| <= SLOT_COUNT
    ensures EnoughSlots(plan)
  {
    forall k | 0 <= k < |plan.ivs|
      ensures plan.ivs[k].producer < plan.ivs[k].firstConsumer
    {
      assert plan.ivs[k] in plan.ivs && IsInterval(plan.minSafe, instrs, plan.graph, plan.ivs[k]);
    }
    SlotsWithinMaxLive(plan.ivs, plan.group, plan.colors, SLOT_COUNT);
  }
}
