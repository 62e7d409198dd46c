/** The scoreboard simulation of control codes. */
module Scoreboard {
  import opened ControlCode
  import opened DecodedInstructions
  import opened HazardGraph

  /** The producer's access an edge is about. */
  function RelevantAccessOf(kind: HazardType): BarrierType {
    if kind == WAR then READ_BARRIER else WRITE_BARRIER
  }

  /** Whether a producer's barrier can protect the given access. */
  predicate IsBarrierEligible(latency: LatencyClass, access: BarrierType) {
    latency.Variable? && latency.barrier == access
  }

  /** The scoreboard field for one kind of barrier; -1 when unset. */
  function BarrierField(cc: CuControlCode, access: BarrierType): int {
    if access == WRITE_BARRIER then cc.GetWriteSB() else cc.GetReadSB()
  }

  /** A variable-latency instruction whose control code opens its barrier. */
  predicate Opens(ins: DecodedInstruction) {
    ins.latency.Variable? && BarrierField(ins.ctrlCode, ins.latency.barrier) != -1
  }

  /** The slot an instruction that opens its barrier occupies. */
  function SlotOf(ins: DecodedInstruction): (s: nat)
    requires Opens(ins)
  {
    BarrierField(ins.ctrlCode, ins.latency.barrier)
  }

  /** The instruction joins the pending queue of slot `s`. */
  predicate Claims(ins: DecodedInstruction, s: nat) {
    Opens(ins) && SlotOf(ins) == s
  }

  /** The edge is protected by a barrier that its producer really opened. */
  predicate BarrierProtects(producer: DecodedInstruction, kind: HazardType) {
    && IsBarrierEligible(producer.latency, RelevantAccessOf(kind))
    && BarrierField(producer.ctrlCode, RelevantAccessOf(kind)) != -1
  }

  /** Some instruction after `p`, up to and including `i`, waits on the slot `p` occupies. */
  ghost predicate RetiredBy(instrs: seq<DecodedInstruction>, p: nat, i: int)
    requires p < |instrs| && i < |instrs|
  {
    Opens(instrs[p]) && exists w :: p < w <= i && instrs[w].ctrlCode.WaitsOn(SlotOf(instrs[p]))
  }

  /** When an edge counts as closed. */
  ghost predicate EdgeClosed(instrs: seq<DecodedInstruction>, e: HazardEdge)
    requires e.producer < e.consumer < |instrs|
  {
    if BarrierProtects(instrs[e.producer], e.kind) then
      RetiredBy(instrs, e.producer, e.consumer)
    else
      !(e.consumer == e.producer + 1 && instrs[e.producer].ctrlCode.GetStallCount() == 0)
  }

  datatype Reason = NeverWaited(barrier: BarrierType) | AdjacentZeroStall

  datatype HazardViolation = HazardViolation(edge: HazardEdge, reason: Reason)

  predicate GraphOver(n: nat, graph: set<HazardEdge>) {
    forall e :: e in graph ==> e.producer < e.consumer < n
  }

  /** The queue of slot `s` after the first `n` instructions, in issue order. */
  function PendingAfter(instrs: seq<DecodedInstruction>, s: nat, n: nat): seq<nat>
    requires n <= |instrs|
  {
    if n == 0 then []
    else
      var kept := if instrs[n - 1].ctrlCode.WaitsOn(s) then [] else PendingAfter(instrs, s, n - 1);
      if Claims(instrs[n - 1], s) then kept + [n - 1] else kept
  }

  /** A queue holds exactly the claimants of its slot that no later instruction waited for. */
  lemma {:induction false} PendingMeaning(instrs: seq<DecodedInstruction>, s: nat, n: nat, p: nat)
    requires n <= |instrs|
    ensures p in PendingAfter(instrs, s, n) <==>
            p < n && Claims(instrs[p], s) && !RetiredBy(instrs, p, n - 1)
  {
    if n > 0 {
      PendingMeaning(instrs, s, n - 1, p);
      if p < n - 1 && Claims(instrs[p], s) {
        assert RetiredBy(instrs, p, n - 1) <==> RetiredBy(instrs, p, n - 2) || instrs[n - 1].ctrlCode.WaitsOn(s);
      }
    }
  }

  /** The verdict of the simulation on one edge. */
  ghost predicate IsViolation(instrs: seq<DecodedInstruction>, graph: set<HazardEdge>, v: HazardViolation)
    requires GraphOver(|instrs|, graph)
  {
    && v.edge in graph
    && !EdgeClosed(instrs, v.edge)
    && v.reason == if BarrierProtects(instrs[v.edge.producer], v.edge.kind)
                   then NeverWaited(RelevantAccessOf(v.edge.kind))
                   else AdjacentZeroStall
  }

  /** The producer of a RAW or WAW edge has a write scoreboard. */
  predicate WriteOpen(ins: DecodedInstruction, kind: HazardType) {
    kind != WAR && ins.latency == Variable(WRITE_BARRIER) && ins.ctrlCode.write != 7
  }

  /** The producer of a WAR edge has a read scoreboard. */
  predicate ReadOpen(ins: DecodedInstruction, kind: HazardType) {
    kind == WAR && ins.latency == Variable(READ_BARRIER) && ins.ctrlCode.read != 7
  }

  /** No instruction behind the producer, up to the consumer, waits on the slot. */
  ghost predicate NoWait(instrs: seq<DecodedInstruction>, e: HazardEdge, slot: nat)
    requires e.producer < e.consumer < |instrs|
  {
    forall w :: e.producer < w <= e.consumer ==> !instrs[w].ctrlCode.WaitsOn(slot)
  }

  /** What is wrong with an edge, in terms of latencies, scoreboard fields, waits and stall counts. */
  ghost predicate Complaint(instrs: seq<DecodedInstruction>, e: HazardEdge, reason: Reason)
    requires e.producer < e.consumer < |instrs|
  {
    var ins := instrs[e.producer];
    match reason
    case NeverWaited(WRITE_BARRIER) => WriteOpen(ins, e.kind) && NoWait(instrs, e, ins.ctrlCode.write)
    case NeverWaited(READ_BARRIER) => ReadOpen(ins, e.kind) && NoWait(instrs, e, ins.ctrlCode.read)
    case AdjacentZeroStall =>
      !WriteOpen(ins, e.kind) && !ReadOpen(ins, e.kind) && e.consumer == e.producer + 1 && ins.ctrlCode.stall == 0
  }

  /** A barrier protects an edge exactly if the scoreboard for the producer's access is open. */
  lemma ProtectsMeaning(ins: DecodedInstruction, kind: HazardType)
    ensures BarrierProtects(ins, kind) <==> WriteOpen(ins, kind) || ReadOpen(ins, kind)
    ensures WriteOpen(ins, kind) ==> Opens(ins) && SlotOf(ins) == ins.ctrlCode.write
    ensures ReadOpen(ins, kind) ==> Opens(ins) && SlotOf(ins) == ins.ctrlCode.read
  {
  }

  /** The violations of a graph are the complaints about its edges. */
  lemma ViolationMeaning(instrs: seq<DecodedInstruction>, graph: set<HazardEdge>, v: HazardViolation)
    requires GraphOver(|instrs|, graph)
    ensures IsViolation(instrs, graph, v) <==> v.edge in graph && Complaint(instrs, v.edge, v.reason)
  {
    if v.edge in graph {
      ProtectsMeaning(instrs[v.edge.producer], v.edge.kind);
    }
  }

  ghost predicate RetiredMatches(instrs: seq<DecodedInstruction>, retired: seq<bool>, n: nat)
    requires n <= |instrs| == |retired|
  {
    forall p :: 0 <= p < |instrs| ==> (retired[p] <==> RetiredBy(instrs, p, n - 1))
  }

  /** Empties every queue in the wait set, retiring what was in it. */
  method Wait(barriers: set<nat>, slotPending: array<seq<nat>>, retired: array<bool>)
    requires slotPending.Length == SLOT_COUNT
    requires forall s: nat :: s in barriers ==> s < SLOT_COUNT
    requires forall s, p :: 0 <= s < SLOT_COUNT && p in slotPending[s] ==> p < retired.Length
    modifies slotPending, retired
    ensures forall s :: 0 <= s < SLOT_COUNT ==> slotPending[s] == if s in barriers then [] else old(slotPending[s])
    ensures forall p: nat :: p < retired.Length ==>
              (retired[p] <==> old(retired[p]) || exists s: nat :: s in barriers && p in old(slotPending[s]))
  {
    for slot := 0 to SLOT_COUNT
      invariant forall s :: 0 <= s < SLOT_COUNT ==>
                  slotPending[s] == if s < slot && s in barriers then [] else old(slotPending[s])
      invariant forall p: nat :: p < retired.Length ==>
                  (retired[p] <==>
                     old(retired[p]) || (exists s: nat :: s < slot && s in barriers && p in old(slotPending[s])))
    {
      if slot in barriers {
        var pending := slotPending[slot];
        for k := 0 to |pending|
          modifies retired
          invariant forall p: nat :: p < retired.Length ==>
                      (retired[p] <==> || old(retired[p])
                                       || (exists s: nat :: s < slot && s in barriers && p in old(slotPending[s]))
                                       || p in pending[..k])
        {
          assert pending[k] in old(slotPending[slot]);
          retired[pending[k]] := true;
          assert pending[..k + 1] == pending[..k] + [pending[k]];
        }
        assert pending[..|pending|] == pending;
        slotPending[slot] := [];
      }
    }
  }

  /** Whether one instruction is retired before and after the wait of instruction `i`. */
  lemma RetiredStep(instrs: seq<DecodedInstruction>, i: nat, p: nat)
    requires i < |instrs| && p < |instrs|
    ensures RetiredBy(instrs, p, i) <==>
            || RetiredBy(instrs, p, i - 1)
            || exists s: nat :: instrs[i].ctrlCode.WaitsOn(s) && p in PendingAfter(instrs, s, i)
  {
    if RetiredBy(instrs, p, i) && !RetiredBy(instrs, p, i - 1) {
      var s := SlotOf(instrs[p]);
      PendingMeaning(instrs, s, i, p);
      assert p in PendingAfter(instrs, s, i);
    }
    forall s: nat | instrs[i].ctrlCode.WaitsOn(s) && p in PendingAfter(instrs, s, i)
      ensures RetiredBy(instrs, p, i)
    {
      PendingMeaning(instrs, s, i, p);
    }
  }

  /** Waiting turns "retired before `i`" into "retired by `i`". */
  lemma WaitRetires(instrs: seq<DecodedInstruction>, i: nat, before: seq<bool>, after: seq<bool>,
                    queues: seq<seq<nat>>, barriers: set<nat>)
    requires i < |instrs| == |before| == |after| && |queues| == SLOT_COUNT
    requires RetiredMatches(instrs, before, i)
    requires forall s :: 0 <= s < SLOT_COUNT ==> queues[s] == PendingAfter(instrs, s, i)
    requires forall s: nat :: s in barriers <==> instrs[i].ctrlCode.WaitsOn(s)
    requires forall s: nat :: s in barriers ==> s < SLOT_COUNT
    requires forall p: nat :: p < |after| ==>
               (after[p] <==> before[p] || exists s: nat :: s in barriers && p in queues[s])
    ensures RetiredMatches(instrs, after, i + 1)
  {
    forall p: nat | p < |instrs|
      ensures after[p] <==> RetiredBy(instrs, p, i)
    {
      RetiredStep(instrs, i, p);
      assert before[p] <==> RetiredBy(instrs, p, i - 1);
      if exists s: nat :: instrs[i].ctrlCode.WaitsOn(s) && p in PendingAfter(instrs, s, i) {
        var s: nat :| instrs[i].ctrlCode.WaitsOn(s) && p in PendingAfter(instrs, s, i);
        assert s in barriers && p in queues[s];
      }
    }
  }

  /** The verdicts on the edges into instruction `i`, given what is retired when it issues. */
  method CheckEdgesInto(instrs: seq<DecodedInstruction>, graph: set<HazardEdge>, i: nat, retired: seq<bool>)
    returns (violations: set<HazardViolation>)
    requires GraphOver(|instrs|, graph) && i < |instrs| == |retired|
    requires RetiredMatches(instrs, retired, i + 1)
    ensures forall v :: v in violations <==> v.edge.consumer == i && IsViolation(instrs, graph, v)
  {
    violations := {};
    var todo := set e | e in graph && e.consumer == i;
    while todo != {}
      invariant forall e :: e in todo ==> e in graph && e.consumer == i
      invariant forall v :: v in violations <==>
                  v.edge !in todo && v.edge.consumer == i && IsViolation(instrs, graph, v)
    {
      var e :| e in todo;
      var producer := instrs[e.producer];
      var access := RelevantAccessOf(e.kind);
      var closed: bool;
      var reason: Reason;
      if IsBarrierEligible(producer.latency, access) && BarrierField(producer.ctrlCode, access) != -1 {
        closed := retired[e.producer];
        reason := NeverWaited(access);
      } else {
        var adjacent := i == e.producer + 1;
        var zeroStall := producer.ctrlCode.GetStallCount() == 0;
        closed := !(adjacent && zeroStall);
        reason := AdjacentZeroStall;
      }
      assert closed <==> EdgeClosed(instrs, e);
      if !closed {
        violations := violations + {HazardViolation(e, reason)};
      }
      todo := todo - {e};
    }
  }

  /**
   Walks the instructions once, keeping one queue of pending producers per slot: each
   instruction first retires what it waits for, then its incoming edges are checked, then it
   joins the queue it claims.
   */
  method SimulateAndVerify(instrs: seq<DecodedInstruction>, graph: set<HazardEdge>)
    returns (violations: set<HazardViolation>)
    requires GraphOver(|instrs|, graph)
    ensures forall v :: v in violations <==> IsViolation(instrs, graph, v)
    ensures forall v :: v in violations <==> v.edge in graph && Complaint(instrs, v.edge, v.reason)
  {
    violations := {};
    var slotPending := new seq<nat>[SLOT_COUNT](_ => []);
    var retired := new bool[|instrs|](_ => false);
    for i := 0 to |instrs|
      invariant RetiredMatches(instrs, retired[..], i)
      invariant forall s :: 0 <= s < SLOT_COUNT ==> slotPending[s] == PendingAfter(instrs, s, i)
      invariant forall v :: v in violations <==> v.edge.consumer < i && IsViolation(instrs, graph, v)
    {
      ghost var before, queues := retired[..], slotPending[..];
      var barriers := GetBarrierSet(instrs[i].ctrlCode);
      PendingInRange(instrs, i);
      Wait(barriers, slotPending, retired);
      WaitRetires(instrs, i, before, retired[..], queues, barriers);

      var found := CheckEdgesInto(instrs, graph, i, retired[..]);
      violations := violations + found;

      if Opens(instrs[i]) {
        var slot := SlotOf(instrs[i]);
        if slot < SLOT_COUNT {
          slotPending[slot] := slotPending[slot] + [i];
        }
      }
    }
    forall v
      ensures v in violations <==> v.edge in graph && Complaint(instrs, v.edge, v.reason)
    {
      ViolationMeaning(instrs, graph, v);
    }
  }

  lemma PendingInRange(instrs: seq<DecodedInstruction>, n: nat)
    requires n <= |instrs|
    ensures forall s: nat, p :: p in PendingAfter(instrs, s, n) ==> p < |instrs|
  {
    forall s: nat, p | p in PendingAfter(instrs, s, n)
      ensures p < |instrs|
    {
      PendingMeaning(instrs, s, n, p);
    }
  }
}
