/** The scoreboard as a machine. */
module ScoreboardMachine {
  /**
   A nondeterministic scoreboard machine, and the exactness of the simulation against it.

   Instructions issue in index order; an instruction that opens its barrier stays outstanding
   until it completes, at any later moment; an instruction whose wait mask names a slot cannot
   issue while an instruction occupying that slot is outstanding.
   */

  import opened DecodedInstructions
  import opened HazardGraph
  import opened Scoreboard

  datatype State = State(pc: nat, outstanding: set<nat>)

  const INITIAL := State(0, {})

  /** The waits of the next instruction are satisfied. */
  predicate CanIssue(instrs: seq<DecodedInstruction>, s: State) {
    && s.pc < |instrs|
    && forall p :: p in s.outstanding && p < |instrs| && Opens(instrs[p]) ==>
                     !instrs[s.pc].ctrlCode.WaitsOn(SlotOf(instrs[p]))
  }

  predicate Issue(instrs: seq<DecodedInstruction>, s: State, s': State) {
    && CanIssue(instrs, s)
    && s' == State(s.pc + 1, s.outstanding + if Opens(instrs[s.pc]) then {s.pc} else {})
  }

  predicate Complete(s: State, s': State, p: nat) {
    p in s.outstanding && s' == s.(outstanding := s.outstanding - {p})
  }

  ghost predicate Next(instrs: seq<DecodedInstruction>, s: State, s': State) {
    Issue(instrs, s, s') || exists p :: Complete(s, s', p)
  }

  ghost predicate IsRun(instrs: seq<DecodedInstruction>, run: seq<State>) {
    && |run| >= 1
    && run[0] == INITIAL
    && forall k :: 0 <= k < |run| - 1 ==> Next(instrs, run[k], run[k + 1])
  }

  ghost predicate Reachable(instrs: seq<DecodedInstruction>, s: State) {
    exists run :: IsRun(instrs, run) && run[|run| - 1] == s
  }

  lemma ReachNext(instrs: seq<DecodedInstruction>, s: State, s': State)
    requires Reachable(instrs, s) && Next(instrs, s, s')
    ensures Reachable(instrs, s')
  {
    var run :| IsRun(instrs, run) && run[|run| - 1] == s;
    assert IsRun(instrs, run + [s']);
  }

  /** Some run issues `c` while `p` is still outstanding. */
  ghost predicate CanOvertake(instrs: seq<DecodedInstruction>, p: nat, c: nat) {
    exists s :: Reachable(instrs, s) && s.pc == c && CanIssue(instrs, s) && p in s.outstanding
  }

  // ---------- No run does more than the simulation says ----------

  ghost predicate Inv(instrs: seq<DecodedInstruction>, s: State) {
    && s.pc <= |instrs|
    && forall p :: p in s.outstanding ==> p < s.pc && Opens(instrs[p]) && !RetiredBy(instrs, p, s.pc - 1)
  }

  lemma IssueKeepsInv(instrs: seq<DecodedInstruction>, s: State, s': State)
    requires Inv(instrs, s) && Issue(instrs, s, s')
    ensures Inv(instrs, s')
  {
    forall p | p in s'.outstanding
      ensures p < s'.pc && Opens(instrs[p]) && !RetiredBy(instrs, p, s'.pc - 1)
    {
      if p != s.pc {
        assert !RetiredBy(instrs, p, s.pc - 1);
      }
    }
  }

  lemma {:induction false} RunKeepsInv(instrs: seq<DecodedInstruction>, run: seq<State>, k: nat)
    requires IsRun(instrs, run) && k < |run|
    ensures Inv(instrs, run[k])
  {
    if k > 0 {
      RunKeepsInv(instrs, run, k - 1);
      assert Next(instrs, run[k - 1], run[k]);
      if Issue(instrs, run[k - 1], run[k]) {
        IssueKeepsInv(instrs, run[k - 1], run[k]);
      }
    }
  }

  // ---------- The laziest run does all of it ----------

  /** The instructions that a run completing only what it must still has outstanding. */
  ghost function StillOut(instrs: seq<DecodedInstruction>, i: nat, waited: int): set<nat>
    requires i <= |instrs| && waited < |instrs|
  {
    set p | 0 <= p < i && Opens(instrs[p]) && !RetiredBy(instrs, p, waited)
  }

  lemma {:induction false} CompleteAll(instrs: seq<DecodedInstruction>, s: State, done: set<nat>)
    requires Reachable(instrs, s) && done <= s.outstanding
    ensures Reachable(instrs, s.(outstanding := s.outstanding - done))
    decreases |done|
  {
    if done == {} {
      assert s.outstanding - done == s.outstanding;
    } else {
      var p :| p in done;
      var s1 := s.(outstanding := s.outstanding - {p});
      assert Complete(s, s1, p);
      ReachNext(instrs, s, s1);
      CompleteAll(instrs, s1, done - {p});
      assert s1.outstanding - (done - {p}) == s.outstanding - done;
    }
  }

  /** The laziest run reaches instruction `i` with everything not waited for still outstanding. */
  lemma {:induction false} LazyReaches(instrs: seq<DecodedInstruction>, i: nat)
    requires i <= |instrs|
    ensures Reachable(instrs, State(i, StillOut(instrs, i, i - 1)))
    decreases i, 0
  {
    if i == 0 {
      assert IsRun(instrs, [INITIAL]);
      assert StillOut(instrs, 0, -1) == {};
    } else {
      LazyReady(instrs, i - 1);
      var ready := State(i - 1, StillOut(instrs, i - 1, i - 1));
      var next := State(i, StillOut(instrs, i, i - 1));
      assert Issue(instrs, ready, next);
      ReachNext(instrs, ready, next);
    }
  }

  /** ... and, after completing what instruction `i` waits for, can issue it. */
  lemma {:induction false} LazyReady(instrs: seq<DecodedInstruction>, i: nat)
    requires i < |instrs|
    ensures Reachable(instrs, State(i, StillOut(instrs, i, i)))
    ensures CanIssue(instrs, State(i, StillOut(instrs, i, i)))
    decreases i, 1
  {
    LazyReaches(instrs, i);
    var s := State(i, StillOut(instrs, i, i - 1));
    var done := s.outstanding - StillOut(instrs, i, i);
    CompleteAll(instrs, s, done);
    assert s.outstanding - done == StillOut(instrs, i, i);
  }

  /** An instruction can be overtaken exactly when nothing up to the consumer waits for its slot. */
  lemma OvertakenIffNotRetired(instrs: seq<DecodedInstruction>, p: nat, c: nat)
    requires p < c < |instrs| && Opens(instrs[p])
    ensures CanOvertake(instrs, p, c) <==> !RetiredBy(instrs, p, c)
  {
    if CanOvertake(instrs, p, c) {
      var s :| Reachable(instrs, s) && s.pc == c && CanIssue(instrs, s) && p in s.outstanding;
      var run :| IsRun(instrs, run) && run[|run| - 1] == s;
      RunKeepsInv(instrs, run, |run| - 1);
    }
    if !RetiredBy(instrs, p, c) {
      LazyReady(instrs, c);
      assert p in StillOut(instrs, c, c);
    }
  }

  /**
   The simulation is exact on barrier-protected edges: it reports one if and only if some run
   of the machine issues the consumer while the producer is outstanding.
   */
  lemma SimulationIsExact(instrs: seq<DecodedInstruction>, graph: set<HazardEdge>, e: HazardEdge)
    requires GraphOver(|instrs|, graph) && e in graph
    requires WriteOpen(instrs[e.producer], e.kind) || ReadOpen(instrs[e.producer], e.kind)
    ensures (exists v: HazardViolation :: v.edge == e && IsViolation(instrs, graph, v)) <==>
            CanOvertake(instrs, e.producer, e.consumer)
  {
    ProtectsMeaning(instrs[e.producer], e.kind);
    OvertakenIffNotRetired(instrs, e.producer, e.consumer);
    var v := HazardViolation(e, NeverWaited(RelevantAccessOf(e.kind)));
    assert IsViolation(instrs, graph, v) <==> !EdgeClosed(instrs, e);
  }

  /** The machine never blocks for good: from every reachable state the next instruction can issue eventually. */
  lemma NeverStuck(instrs: seq<DecodedInstruction>, s: State)
    requires Reachable(instrs, s) && s.pc < |instrs|
    ensures exists s' ::
              Reachable(instrs, s') && s'.pc == s.pc && CanIssue(instrs, s') && s'.outstanding <= s.outstanding
  {
    CompleteAll(instrs, s, s.outstanding);
    var s' := s.(outstanding := s.outstanding - s.outstanding);
    assert CanIssue(instrs, s');
  }
}
