/** What the hazard graph is good for. */
module Reordering {
  /**
   What the hazard graph is for: it connects every pair of conflicting instructions, and so any
   order of straight-line code that respects its edges computes the same registers.
   */

  import opened DecodedInstructions
  import opened ControlFlow
  import opened HazardGraph

  // ---------- Conflicts are connected ----------

  ghost predicate Conflict(instrs: seq<DecodedInstruction>, a: nat, b: nat, r: Register)
    requires AllValid(instrs) && a < |instrs| && b < |instrs|
  {
    && Accesses(instrs[a], r)
    && Accesses(instrs[b], r)
    && (Writes(instrs[a], r) || Writes(instrs[b], r))
  }

  /** `chain` leads from its first to its last instruction along hazard edges. */
  ghost predicate HazardChain(instrs: seq<DecodedInstruction>, succ: seq<seq<nat>>, chain: seq<HazardEdge>, a: nat,
                              b: nat)
    requires AllValid(instrs) && |succ| == |instrs|
  {
    && |chain| >= 1
    && chain[0].producer == a
    && chain[|chain| - 1].consumer == b
    && (forall k :: 0 <= k < |chain| ==> IsHazard(instrs, succ, chain[k]))
    && (forall k :: 0 <= k < |chain| - 1 ==> chain[k].consumer == chain[k + 1].producer)
  }

  lemma PathSuffix(succ: seq<seq<nat>>, path: seq<nat>, k: nat)
    requires ForwardPath(succ, path) && k < |path|
    ensures ForwardPath(succ, path[k..])
  {
  }

  lemma PathPrefix(succ: seq<seq<nat>>, path: seq<nat>, k: nat)
    requires ForwardPath(succ, path) && 0 < k <= |path|
    ensures ForwardPath(succ, path[..k])
  {
  }

  /** The first position after the start of a path that writes `r`; the length if there is none. */
  lemma FirstWriter(instrs: seq<DecodedInstruction>, path: seq<nat>, r: Register) returns (k: nat)
    requires AllValid(instrs) && |path| >= 1
    requires forall j :: 0 <= j < |path| ==> path[j] < |instrs|
    ensures 1 <= k <= |path|
    ensures Clear(instrs, path, k, r)
    ensures k < |path| ==> Writes(instrs[path[k]], r)
  {
    k := 1;
    while k < |path| && !Writes(instrs[path[k]], r)
      invariant 1 <= k <= |path| && Clear(instrs, path, k, r)
    {
      k := k + 1;
    }
  }

  /** The hazard edge along a path that is clear of other writers. */
  lemma DirectEdge(instrs: seq<DecodedInstruction>, succ: seq<seq<nat>>, path: seq<nat>, r: Register)
    returns (e: HazardEdge)
    requires AllValid(instrs) && |succ| == |instrs|
    requires ForwardPath(succ, path) && |path| >= 2
    requires Conflict(instrs, path[0], path[|path| - 1], r)
    requires Clear(instrs, path, |path| - 1, r)
    ensures e.producer == path[0] && e.consumer == path[|path| - 1]
    ensures IsHazard(instrs, succ, e)
  {
    var p, c := path[0], path[|path| - 1];
    var kind := if !Writes(instrs[p], r) then WAR else if Writes(instrs[c], r) then WAW else RAW;
    e := HazardEdge(p, c, kind, r);
    assert HazardPath(instrs, succ, path, e);
  }

  /** Two conflicting instructions joined by a forward path are joined by a chain of hazard edges. */
  lemma {:induction false} ConflictsAreConnected(instrs: seq<DecodedInstruction>, succ: seq<seq<nat>>, path: seq<nat>,
                                                 r: Register)
    returns (chain: seq<HazardEdge>)
    requires AllValid(instrs) && |succ| == |instrs|
    requires ForwardPath(succ, path) && |path| >= 2
    requires Conflict(instrs, path[0], path[|path| - 1], r)
    ensures HazardChain(instrs, succ, chain, path[0], path[|path| - 1])
    decreases |path|
  {
    var k := FirstWriter(instrs, path, r);
    if k >= |path| - 1 {
      var e := DirectEdge(instrs, succ, path, r);
      chain := [e];
    } else {
      var front, back := path[..k + 1], path[k..];
      PathPrefix(succ, path, k + 1);
      PathSuffix(succ, path, k);
      assert Clear(instrs, front, |front| - 1, r);
      var e := DirectEdge(instrs, succ, front, r);
      var rest := ConflictsAreConnected(instrs, succ, back, r);
      chain := [e] + rest;
    }
  }

  // ---------- Execution of register-only code ----------

  /** A register file: a value for every register. */
  type RegisterFile = s: imap<Register, int> | forall r :: r in s ghost witness imap r: Register :: 0

  /** The registers an instruction accesses, as a finite set. */
  ghost function AccessedSet(ins: DecodedInstruction): (rs: set<Register>)
    requires ins.Valid()
    ensures forall r :: Accesses(ins, r) ==> r in rs
  {
    {GuardRegister(ins)}
    + set k | 0 <= k < |ins.roles| && OperandRegister(ins, k).Some? :: OperandRegister(ins, k).value
  }

  /** The values an instruction can depend on. */
  ghost function Inputs(ins: DecodedInstruction, s: RegisterFile): map<Register, int>
    requires ins.Valid()
  {
    map r | r in AccessedSet(ins) && Accesses(ins, r) :: s[r]
  }

  /** The meaning of instructions: an arbitrary function of the values they can depend on. */
  type Semantics = (DecodedInstruction, Register, map<Register, int>) -> int

  ghost function Execute(sem: Semantics, ins: DecodedInstruction, s: RegisterFile): RegisterFile
    requires ins.Valid()
  {
    imap r: Register :: if Writes(ins, r) then sem(ins, r, Inputs(ins, s)) else s[r]
  }

  predicate InRange(order: seq<nat>, n: nat) {
    forall k :: 0 <= k < |order| ==> order[k] < n
  }

  /** Running the instructions named by `order`, one after the other. */
  ghost function Run(sem: Semantics, instrs: seq<DecodedInstruction>, order: seq<nat>, s: RegisterFile): RegisterFile
    requires AllValid(instrs)
    requires InRange(order, |instrs|)
  {
    if order == [] then s else Run(sem, instrs, order[1..], Execute(sem, instrs[order[0]], s))
  }

  ghost predicate Independent(instrs: seq<DecodedInstruction>, a: nat, b: nat)
    requires AllValid(instrs) && a < |instrs| && b < |instrs|
  {
    forall r :: !Conflict(instrs, a, b, r)
  }

  /** Independent instructions commute. */
  lemma Commute(sem: Semantics, instrs: seq<DecodedInstruction>, a: nat, b: nat, s: RegisterFile)
    requires AllValid(instrs) && a < |instrs| && b < |instrs| && Independent(instrs, a, b)
    ensures Execute(sem, instrs[a], Execute(sem, instrs[b], s)) == Execute(sem, instrs[b], Execute(sem, instrs[a], s))
  {
    var ia, ib := instrs[a], instrs[b];
    var sa, sb := Execute(sem, ia, s), Execute(sem, ib, s);
    forall r
      ensures Accesses(ia, r) ==> !Writes(ib, r)
      ensures Accesses(ib, r) ==> !Writes(ia, r)
    {
      assert !Conflict(instrs, a, b, r);
    }
    assert Inputs(ia, sb) == Inputs(ia, s);
    assert Inputs(ib, sa) == Inputs(ib, s);
  }

  lemma {:induction false} RunConcat(sem: Semantics, instrs: seq<DecodedInstruction>, o1: seq<nat>, o2: seq<nat>,
                                     s: RegisterFile)
    requires AllValid(instrs)
    requires InRange(o1, |instrs|) && InRange(o2, |instrs|)
    ensures Run(sem, instrs, o1 + o2, s) == Run(sem, instrs, o2, Run(sem, instrs, o1, s))
  {
    if o1 == [] {
      assert o1 + o2 == o2;
    } else {
      RunConcat(sem, instrs, o1[1..], o2, Execute(sem, instrs[o1[0]], s));
      assert (o1 + o2)[1..] == o1[1..] + o2;
    }
  }

  /** An instruction independent of all those before it can run first. */
  lemma {:induction false} MoveToFront(sem: Semantics, instrs: seq<DecodedInstruction>, front: seq<nat>, h: nat,
                                       s: RegisterFile)
    requires AllValid(instrs) && h < |instrs|
    requires InRange(front, |instrs|)
    requires forall k :: 0 <= k < |front| ==> Independent(instrs, h, front[k])
    ensures Execute(sem, instrs[h], Run(sem, instrs, front, s)) == Run(sem, instrs, front, Execute(sem, instrs[h], s))
  {
    if front != [] {
      var x := front[0];
      MoveToFront(sem, instrs, front[1..], h, Execute(sem, instrs[x], s));
      assert Independent(instrs, h, x);
      Commute(sem, instrs, h, x, s);
    }
  }

  // ---------- Orders ----------

  ghost predicate Distinct(o: seq<nat>) {
    forall i, j :: 0 <= i < j < |o| ==> o[i] != o[j]
  }

  ghost predicate Before(o: seq<nat>, x: nat, y: nat) {
    exists i, j :: 0 <= i < j < |o| && o[i] == x && o[j] == y
  }

  ghost predicate SameElements(o: seq<nat>, t: seq<nat>) {
    forall x :: x in o <==> x in t
  }

  lemma SameElementsEmpty(o: seq<nat>, t: seq<nat>)
    requires SameElements(o, t)
    ensures t != [] ==> o != []
  {
    if t != [] {
      assert t[0] in t && t[0] in o;
    }
  }

  /** Conflicting instructions stand in `t` in the order they stand in `o`. */
  ghost predicate KeepsConflicts(instrs: seq<DecodedInstruction>, o: seq<nat>, t: seq<nat>)
    requires AllValid(instrs)
    requires InRange(o, |instrs|)
  {
    forall i, j :: 0 <= i < j < |o| && !Independent(instrs, o[i], o[j]) ==> Before(t, o[i], o[j])
  }

  lemma BeforeTransitive(o: seq<nat>, x: nat, y: nat, z: nat)
    requires Distinct(o) && Before(o, x, y) && Before(o, y, z)
    ensures Before(o, x, z)
  {
  }

  function RemoveAt(t: seq<nat>, k: nat): seq<nat>
    requires k < |t|
  {
    t[..k] + t[k + 1..]
  }

  lemma RemoveAtElements(t: seq<nat>, k: nat)
    requires Distinct(t) && k < |t|
    ensures Distinct(RemoveAt(t, k))
    ensures forall x :: x in RemoveAt(t, k) <==> x in t && x != t[k]
  {
    var t' := RemoveAt(t, k);
    forall i | 0 <= i < |t| && i != k
      ensures t[i] in t'
    {
      assert t'[if i < k then i else i - 1] == t[i];
    }
  }

  lemma RemoveAtBefore(t: seq<nat>, k: nat, x: nat, y: nat)
    requires k < |t| && Before(t, x, y) && x != t[k] && y != t[k]
    ensures Before(RemoveAt(t, k), x, y)
  {
    var i, j :| 0 <= i < j < |t| && t[i] == x && t[j] == y;
    var t' := RemoveAt(t, k);
    var i', j' := if i < k then i else i - 1, if j < k then j else j - 1;
    assert 0 <= i' < j' < |t'| && t'[i'] == x && t'[j'] == y;
  }

  /** The part of a schedule before the head of the other holds nothing that conflicts with it. */
  lemma FrontIsIndependent(instrs: seq<DecodedInstruction>, o: seq<nat>, t: seq<nat>, k: nat, i: nat)
    requires AllValid(instrs)
    requires Distinct(o) && Distinct(t) && SameElements(o, t) && |o| > 0
    requires InRange(o, |instrs|)
    requires KeepsConflicts(instrs, o, t)
    requires i < k < |t| && t[k] == o[0]
    ensures t[i] < |instrs| && Independent(instrs, o[0], t[i])
  {
    assert t[i] in t && t[i] in o;
    var j :| 0 <= j < |o| && o[j] == t[i];
    assert t[i] < |instrs|;
    assert !Before(t, o[0], t[i]);
    assert o[0] != o[j];
  }

  /** Dropping the head of one schedule from both keeps what they agree on. */
  lemma RemoveHead(instrs: seq<DecodedInstruction>, o: seq<nat>, t: seq<nat>, k: nat)
    requires AllValid(instrs)
    requires Distinct(o) && Distinct(t) && SameElements(o, t) && |o| > 0
    requires InRange(o, |instrs|)
    requires KeepsConflicts(instrs, o, t)
    requires k < |t| && t[k] == o[0]
    ensures InRange(o[1..], |instrs|)
    ensures Distinct(o[1..]) && Distinct(RemoveAt(t, k)) && SameElements(o[1..], RemoveAt(t, k))
    ensures KeepsConflicts(instrs, o[1..], RemoveAt(t, k))
  {
    var o' := o[1..];
    assert o' == RemoveAt(o, 0);
    RemoveAtElements(o, 0);
    RemoveAtElements(t, k);
    forall i, j | 0 <= i < j < |o'| && !Independent(instrs, o'[i], o'[j])
      ensures Before(RemoveAt(t, k), o'[i], o'[j])
    {
      assert o'[i] == o[i + 1] && o'[j] == o[j + 1];
      assert Before(t, o[i + 1], o[j + 1]);
      RemoveAtBefore(t, k, o[i + 1], o[j + 1]);
    }
  }

  lemma {:induction false} RunThrough(sem: Semantics, instrs: seq<DecodedInstruction>, front: seq<nat>, h: nat,
                                      back: seq<nat>, s: RegisterFile)
    requires AllValid(instrs) && InRange(front, |instrs|) && h < |instrs| && InRange(back, |instrs|)
    ensures InRange(front + ([h] + back), |instrs|)
    ensures Run(sem, instrs, front + ([h] + back), s) ==
            Run(sem, instrs, back, Execute(sem, instrs[h], Run(sem, instrs, front, s)))
  {
    RunConcat(sem, instrs, front, [h] + back, s);
    assert ([h] + back)[1..] == back;
  }

  /** An instruction independent of everything before it may as well run first. */
  lemma RunHeadFirst(sem: Semantics, instrs: seq<DecodedInstruction>, t: seq<nat>, k: nat, s: RegisterFile)
    requires AllValid(instrs) && InRange(t, |instrs|) && k < |t|
    requires forall i :: 0 <= i < k ==> Independent(instrs, t[k], t[i])
    ensures InRange(RemoveAt(t, k), |instrs|)
    ensures Run(sem, instrs, t, s) == Run(sem, instrs, RemoveAt(t, k), Execute(sem, instrs[t[k]], s))
  {
    var h, front, back := t[k], t[..k], t[k + 1..];
    assert t == front + ([h] + back);
    RunThrough(sem, instrs, front, h, back, s);
    MoveToFront(sem, instrs, front, h, s);
    RunConcat(sem, instrs, front, back, Execute(sem, instrs[h], s));
  }

  /** Two schedules of the same instructions that agree on conflicts compute the same registers. */
  lemma {:induction false} SchedulesAgree(sem: Semantics, instrs: seq<DecodedInstruction>, o: seq<nat>, t: seq<nat>,
                                          s: RegisterFile)
    requires AllValid(instrs)
    requires Distinct(o) && Distinct(t) && SameElements(o, t)
    requires InRange(o, |instrs|) && InRange(t, |instrs|)
    requires KeepsConflicts(instrs, o, t)
    ensures Run(sem, instrs, o, s) == Run(sem, instrs, t, s)
    decreases |o|
  {
    if o == [] {
      SameElementsEmpty(o, t);
    } else {
      assert o[0] in t;
      var k :| 0 <= k < |t| && t[k] == o[0];
      forall i | 0 <= i < k
        ensures Independent(instrs, t[k], t[i])
      {
        FrontIsIndependent(instrs, o, t, k, i);
      }
      RemoveHead(instrs, o, t, k);
      RunHeadFirst(sem, instrs, t, k, s);
      SchedulesAgree(sem, instrs, o[1..], RemoveAt(t, k), Execute(sem, instrs[o[0]], s));
    }
  }

  ghost function ProgramOrder(n: nat): (o: seq<nat>)
    ensures |o| == n && (forall k :: 0 <= k < n ==> o[k] == k)
    ensures forall x: nat :: x in o <==> x < n
  {
    var o := seq(n, i => i);
    forall x: nat | x < n
      ensures x in o
    {
      assert o[x] == x;
    }
    o
  }

  lemma StraightPath(succ: seq<seq<nat>>, a: nat, b: nat) returns (path: seq<nat>)
    requires StraightLine(succ) && a < b < |succ|
    ensures ForwardPath(succ, path) && |path| >= 2 && path[0] == a && path[|path| - 1] == b
  {
    path := seq(b - a + 1, k => a + k);
  }

  lemma {:induction false} ChainIsOrdered(instrs: seq<DecodedInstruction>, succ: seq<seq<nat>>, chain: seq<HazardEdge>,
                                          a: nat, b: nat, order: seq<nat>)
    requires AllValid(instrs) && |succ| == |instrs| && HazardChain(instrs, succ, chain, a, b)
    requires Distinct(order)
    requires forall e :: IsHazard(instrs, succ, e) ==> Before(order, e.producer, e.consumer)
    ensures Before(order, a, b)
    decreases |chain|
  {
    assert IsHazard(instrs, succ, chain[0]);
    if |chain| > 1 {
      ChainIsOrdered(instrs, succ, chain[1..], chain[0].consumer, b, order);
      BeforeTransitive(order, a, chain[0].consumer, b);
    }
  }

  /**
   Any order of straight-line, register-only code that keeps the order of every hazard edge
   leaves every register with the value program order leaves in it.
   */
  lemma ReorderingPreservesRegisters(sem: Semantics, instrs: seq<DecodedInstruction>, succ: seq<seq<nat>>,
                                     order: seq<nat>, s: RegisterFile)
    requires AllValid(instrs) && |succ| == |instrs| && StraightLine(succ)
    requires Distinct(order) && InRange(order, |instrs|) && (forall x :: 0 <= x < |instrs| ==> x in order)
    requires forall e :: IsHazard(instrs, succ, e) ==> Before(order, e.producer, e.consumer)
    ensures Run(sem, instrs, order, s) == Run(sem, instrs, ProgramOrder(|instrs|), s)
  {
    var o := ProgramOrder(|instrs|);
    assert forall k :: 0 <= k < |order| ==> order[k] in order;
    forall x, y | 0 <= x < y < |o| && !Independent(instrs, o[x], o[y])
      ensures Before(order, o[x], o[y])
    {
      var r :| Conflict(instrs, x, y, r);
      var path := StraightPath(succ, x, y);
      var chain := ConflictsAreConnected(instrs, succ, path, r);
      ChainIsOrdered(instrs, succ, chain, x, y, order);
    }
    SchedulesAgree(sem, instrs, o, order, s);
  }
}
