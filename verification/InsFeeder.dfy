/** The line machine that groups instructions. */
module InsFeeder {
  /**
   Grouping the lines of a disassembly into instruction records: the per-architecture line state
   machines, and which line sequences make a group.
   */

  import opened Wrappers
  import opened InstructionPacking
  import opened SMVersion

  /** A classified line. */
  datatype Line =
    | InsCode(addr: nat, asmText: string, code: nat)
    | InsOnly(addr: nat, asmText: string)
    | CodeOnly(code: nat)
    | FuncName(func: string)
    | SectionName(sec: string)
    | HeaderFlag(archDigits: string)
    | Others

  /**
   `WaitForIns(k)`: `k` instructions of the group are still to come; `WaitForCode(k)`: the code of the `k`-th
   last.
   */
  datatype ParserState = Ready | WaitForIns(left: nat) | WaitForCode(left: nat)

  datatype ArchFamily = Default | Sm3x | Sm5x6x | Sm7x8x

  datatype InsRecord = InsRecord(addr: nat, code: nat, asmText: string, ctrl: nat)

  datatype FeederError = InvalidOp | UnknownArch | Packing(error: PackingError)

  /** The state machine for a major version; `Default` if there is none. */
  function FamilyOf(major: int): ArchFamily {
    match major
    case 3 => Sm3x
    case 5 | 6 => Sm5x6x
    case 7 | 8 => Sm7x8x
    case _ => Default
  }

  /** The function or section name that a line sets. */
  function NameSet(pl: Line, name: string): string {
    match pl
    case FuncName(func) => func
    case SectionName(sec) => sec
    case _ => name
  }

  /** Lines that do not belong to instructions: names, supported headers, and anything unknown. */
  predicate IsOutside(pl: Line) {
    pl.FuncName? || pl.SectionName? || pl.Others? || (pl.HeaderFlag? && IsSupported(pl.archDigits))
  }

  /** The state after an instruction of a group was completed. */
  function AfterIns(left: nat): ParserState {
    if left <= 1 then Ready else WaitForIns(left - 1)
  }

  // ---------- Groups of an sm_5x/6x disassembly ----------

  /** One instruction of a group: on one line with its code, or, when dual-issued, with the code on the next line. */
  datatype GroupMember = GroupMember(addr: nat, asmText: string, code: nat, dualIssue: bool)
  {
    function Lines(): seq<Line> {
      if dualIssue then [InsOnly(addr, asmText), CodeOnly(code)] else [InsCode(addr, asmText, code)]
    }
  }

  function MemberLines(ms: seq<GroupMember>): seq<Line> {
    if ms == [] then [] else ms[0].Lines() + MemberLines(ms[1..])
  }

  function Addrs(ms: seq<GroupMember>): (r: seq<nat>)
    ensures |r| == |ms| && forall i :: 0 <= i < |ms| ==> r[i] == ms[i].addr
  {
    seq(|ms|, i requires 0 <= i < |ms| => ms[i].addr)
  }

  function Texts(ms: seq<GroupMember>): (r: seq<string>)
    ensures |r| == |ms| && forall i :: 0 <= i < |ms| ==> r[i] == ms[i].asmText
  {
    seq(|ms|, i requires 0 <= i < |ms| => ms[i].asmText)
  }

  function Codes(ms: seq<GroupMember>): (r: seq<nat>)
    ensures |r| == |ms| && forall i :: 0 <= i < |ms| ==> r[i] == ms[i].code
  {
    seq(|ms|, i requires 0 <= i < |ms| => ms[i].code)
  }

  /** Lines read so far: parser state and the collected addresses, texts and code words. */
  datatype Progress = Progress(state: ParserState, addrs: seq<nat>, texts: seq<string>, codes: seq<nat>)

  const IDLE := Progress(Ready, [], [], [])

  /** One line of a group; lines that do not belong there are errors. */
  function FeedGroupLine(p: Progress, line: Line): Option<Progress> {
    match p.state
    case Ready =>
      if line.CodeOnly? then Some(Progress(WaitForIns(3), p.addrs, p.texts, p.codes + [line.code])) else None
    case WaitForIns(left) =>
      if line.InsCode? then
        Some(Progress(AfterIns(left), p.addrs + [line.addr], p.texts + [line.asmText], p.codes + [line.code]))
      else if line.InsOnly? then
        Some(Progress(WaitForCode(left), p.addrs + [line.addr], p.texts + [line.asmText], p.codes))
      else None
    case WaitForCode(left) =>
      if line.CodeOnly? then Some(Progress(AfterIns(left), p.addrs, p.texts, p.codes + [line.code])) else None
  }

  /** The lines are accepted, lead back to `Ready` with their last line, and to no earlier `Ready`. */
  predicate ReturnsTo(p: Progress, lines: seq<Line>, q: Progress)
    decreases lines
  {
    && lines != []
    && var next := FeedGroupLine(p, lines[0]);
       && next.Some?
       && if |lines| == 1 then next.value == q && q.state == Ready
          else next.value.state != Ready && ReturnsTo(next.value, lines[1..], q)
  }

  /** The progress after complete instructions. */
  function Collected(p: Progress, ms: seq<GroupMember>): Progress {
    Progress(Ready, p.addrs + Addrs(ms), p.texts + Texts(ms), p.codes + Codes(ms))
  }

  function AfterMember(p: Progress, m: GroupMember, left: nat): Progress {
    Progress(AfterIns(left), p.addrs + [m.addr], p.texts + [m.asmText], p.codes + [m.code])
  }

  lemma AddrsStep(a: seq<nat>, ms: seq<GroupMember>)
    requires ms != []
    ensures a + Addrs(ms) == (a + [ms[0].addr]) + Addrs(ms[1..])
  {
  }

  lemma TextsStep(a: seq<string>, ms: seq<GroupMember>)
    requires ms != []
    ensures a + Texts(ms) == (a + [ms[0].asmText]) + Texts(ms[1..])
  {
  }

  lemma CodesStep(a: seq<nat>, ms: seq<GroupMember>)
    requires ms != []
    ensures a + Codes(ms) == (a + [ms[0].code]) + Codes(ms[1..])
  {
  }

  lemma CollectedStep(p: Progress, ms: seq<GroupMember>, left: nat)
    requires ms != []
    ensures Collected(p, ms) == Collected(AfterMember(p, ms[0], left), ms[1..])
  {
    AddrsStep(p.addrs, ms);
    TextsStep(p.texts, ms);
    CodesStep(p.codes, ms);
  }

  /** Reading one member leads to the next instruction, or back to `Ready` after the last. */
  lemma MemberRead(p: Progress, m: GroupMember, rest: seq<Line>, q: Progress, left: nat)
    requires p.state == WaitForIns(left) && left >= 1
    ensures left == 1 && rest == [] ==>
              (ReturnsTo(p, m.Lines() + rest, q) <==> q == AfterMember(p, m, left))
    ensures left > 1 && rest != [] ==>
              (ReturnsTo(p, m.Lines() + rest, q) <==> ReturnsTo(AfterMember(p, m, left), rest, q))
  {
    var lines := m.Lines() + rest;
    if m.dualIssue {
      assert lines[1..] == [CodeOnly(m.code)] + rest;
      assert ([CodeOnly(m.code)] + rest)[1..] == rest;
    } else {
      assert lines[1..] == rest;
    }
  }

  /** The lines of `left` instructions lead back to `Ready`. */
  lemma {:induction false} MembersReturn(p: Progress, ms: seq<GroupMember>, left: nat)
    requires p.state == WaitForIns(left) && |ms| == left >= 1
    ensures ReturnsTo(p, MemberLines(ms), Collected(p, ms))
    decreases left
  {
    CollectedStep(p, ms, left);
    if left == 1 {
      assert ms[1..] == [];
      var q := AfterMember(p, ms[0], left);
      assert Collected(q, []) == q by {
        assert q.addrs + Addrs([]) == q.addrs && q.texts + Texts([]) == q.texts && q.codes + Codes([]) == q.codes;
      }
      MemberRead(p, ms[0], [], q, left);
    } else {
      MembersReturn(AfterMember(p, ms[0], left), ms[1..], left - 1);
      assert MemberLines(ms[1..]) != [];
      MemberRead(p, ms[0], MemberLines(ms[1..]), Collected(p, ms), left);
    }
  }

  /** Lines that lead back to `Ready` start with an instruction. */
  lemma FirstMember(p: Progress, lines: seq<Line>, q: Progress, left: nat) returns (m: GroupMember, rest: seq<Line>)
    requires p.state == WaitForIns(left) && left >= 1 && ReturnsTo(p, lines, q)
    ensures lines == m.Lines() + rest
    ensures left == 1 <==> rest == []
  {
    var first := lines[0];
    if first.InsCode? {
      m := GroupMember(first.addr, first.asmText, first.code, false);
      rest := lines[1..];
    } else {
      var next := FeedGroupLine(p, first).value;
      assert ReturnsTo(next, lines[1..], q);
      m := GroupMember(first.addr, first.asmText, lines[1].code, true);
      rest := lines[2..];
      assert lines[1..][1..] == rest;
    }
  }

  /** Only the lines of `left` instructions lead back to `Ready`. */
  lemma {:induction false} ReturnMembers(p: Progress, lines: seq<Line>, q: Progress, left: nat)
    returns (ms: seq<GroupMember>)
    requires p.state == WaitForIns(left) && left >= 1 && ReturnsTo(p, lines, q)
    ensures |ms| == left && lines == MemberLines(ms) && q == Collected(p, ms)
    decreases left
  {
    var m, rest := FirstMember(p, lines, q, left);
    MemberRead(p, m, rest, q, left);
    if left == 1 {
      ms := [m];
      assert ms[1..] == [];
      CollectedStep(p, ms, left);
    } else {
      var tail := ReturnMembers(AfterMember(p, m, left), rest, q, left - 1);
      ms := [m] + tail;
      assert ms[1..] == tail;
      CollectedStep(p, ms, left);
    }
  }

  /** The lines of a group: its control word, then its three instructions. */
  function GroupLines(control: nat, ms: seq<GroupMember>): seq<Line> {
    [CodeOnly(control)] + MemberLines(ms)
  }

  /** The progress after a group read by an idle feeder. */
  function GroupRead(control: nat, ms: seq<GroupMember>): Progress {
    Progress(Ready, Addrs(ms), Texts(ms), [control] + Codes(ms))
  }

  ghost predicate IsGroup(lines: seq<Line>, q: Progress) {
    exists control: nat, ms: seq<GroupMember> {:trigger GroupLines(control, ms)} ::
      |ms| == 3 && lines == GroupLines(control, ms) && q == GroupRead(control, ms)
  }

  lemma CollectedFromIdle(p: Progress, control: nat, ms: seq<GroupMember>)
    requires p == Progress(WaitForIns(3), [], [], [control])
    ensures Collected(p, ms) == GroupRead(control, ms)
  {
    NothingBefore(Addrs(ms));
    NothingBefore(Texts(ms));
  }

  lemma NothingBefore<T>(a: seq<T>)
    ensures [] + a == a
  {
  }

  lemma GroupReturns(control: nat, ms: seq<GroupMember>)
    requires |ms| == 3
    ensures ReturnsTo(IDLE, GroupLines(control, ms), GroupRead(control, ms))
  {
    var p := Progress(WaitForIns(3), [], [], [control]);
    assert [] + [control] == [control];
    MembersReturn(p, ms, 3);
    CollectedFromIdle(p, control, ms);
    assert MemberLines(ms) != [];
    assert GroupLines(control, ms)[1..] == MemberLines(ms);
  }

  lemma StartsWithControl(lines: seq<Line>, q: Progress)
    requires ReturnsTo(IDLE, lines, q)
    ensures |lines| > 1 && lines[0].CodeOnly?
    ensures ReturnsTo(Progress(WaitForIns(3), [], [], [lines[0].code]), lines[1..], q)
  {
    assert FeedGroupLine(IDLE, lines[0]).Some?;
    NothingBefore([lines[0].code]);
  }

  lemma RestIsMembers(control: nat, rest: seq<Line>, q: Progress) returns (ms: seq<GroupMember>)
    requires ReturnsTo(Progress(WaitForIns(3), [], [], [control]), rest, q)
    ensures |ms| == 3 && rest == MemberLines(ms) && q == GroupRead(control, ms)
  {
    var p := Progress(WaitForIns(3), [], [], [control]);
    ms := ReturnMembers(p, rest, q, 3);
    CollectedFromIdle(p, control, ms);
  }

  lemma ReturnIsGroup(lines: seq<Line>, q: Progress) returns (control: nat, ms: seq<GroupMember>)
    requires ReturnsTo(IDLE, lines, q)
    ensures |ms| == 3 && lines == GroupLines(control, ms) && q == GroupRead(control, ms)
  {
    StartsWithControl(lines, q);
    control := lines[0].code;
    ms := RestIsMembers(control, lines[1..], q);
  }

  /**
   From an idle feeder, exactly the lines of a control word and three instructions lead away from
   `Ready` and back for the first time; they leave four code words, three addresses and three texts.
   */
  lemma GroupsAreExactly(lines: seq<Line>, q: Progress)
    ensures ReturnsTo(IDLE, lines, q) <==> IsGroup(lines, q)
  {
    if ReturnsTo(IDLE, lines, q) {
      var c, m := ReturnIsGroup(lines, q);
    }
    if IsGroup(lines, q) {
      var control: nat, ms: seq<GroupMember> :|
        |ms| == 3 && lines == GroupLines(control, ms) && q == GroupRead(control, ms);
      GroupReturns(control, ms);
    }
  }

  // ---------- Records ----------

  /** The records of a group: every text with its own address, code and control field. */
  function GroupRecords(control: nat, ms: seq<GroupMember>): (rs: seq<InsRecord>)
    requires |ms| == 3
    ensures |rs| == 3
  {
    seq(3, i requires 0 <= i < 3 =>
      InsRecord(ms[i].addr, ms[i].code + ReuseAt(control, i) * REUSE_WEIGHT, ms[i].asmText, ControlAt(control, i)))
  }

  /** Splitting the words of one group gives each instruction its own control code, and its reuse bits to its code. */
  lemma GroupSplit(control: nat, codes: seq<nat>)
    requires |codes| == 3
    ensures |SplitWords5x6x([control] + codes).0| == |SplitWords5x6x([control] + codes).1| == 3
    ensures forall i :: 0 <= i < 3 ==>
              (SplitWords5x6x([control] + codes).0[i], SplitWords5x6x([control] + codes).1[i])
              == (ControlAt(control, i), codes[i] + ReuseAt(control, i) * REUSE_WEIGHT)
  {
    var words := [control] + codes;
    SplitOneGroup(words);
    forall i: nat | i < 3 {
      SplitFieldMeaning(control, i, codes[i]);
    }
    assert words[1] == codes[0] && words[2] == codes[1] && words[3] == codes[2];
  }

  function Min(a: nat, b: nat): nat {
    if a <= b then a else b
  }

  /** The record at one position of the four lists. */
  function RecordAt(addrs: seq<nat>, codes: seq<nat>, texts: seq<string>, ctrl: seq<nat>, i: nat): InsRecord
    requires i < |addrs| && i < |codes| && i < |texts| && i < |ctrl|
  {
    InsRecord(addrs[i], codes[i], texts[i], ctrl[i])
  }

  class CuInsFeeder {
    var archFamily: ArchFamily
    var pState: ParserState
    var addrList: seq<nat>
    var asmList: seq<string>
    var codeList: seq<nat>
    var currFuncName: string

    ghost function State(): Progress
      reads this
    {
      Progress(pState, addrList, asmList, codeList)
    }

    constructor ()
      ensures State() == IDLE && archFamily == Default
    {
      archFamily, pState := Default, Ready;
      addrList, asmList, codeList := [], [], [];
      currFuncName := "";
    }

    /** Fails, and changes nothing, for text that does not name a supported version. */
    method SwitchArch(archDigits: string) returns (r: Result<(), FeederError>)
      modifies this`archFamily
      ensures r.Success? <==> IsSupported(archDigits)
      ensures r.Failure? ==> r.error == UnknownArch && archFamily == old(archFamily)
      ensures r.Success? ==> exists version ::
                && version in SM_VERSIONS && Names(version, archDigits)
                && archFamily == if version < 70 then Sm5x6x else Sm7x8x
    {
      var version := ValidateVersionString(archDigits);
      if version.None? {
        return Failure(UnknownArch);
      }
      var family := FamilyOf(version.value / 10);
      if family == Default {
        return Failure(UnknownArch);
      }
      archFamily := family;
      return Success(());
    }

    method PushInsOnly(addr: nat, asmText: string)
      modifies this`addrList, this`asmList
      ensures addrList == old(addrList) + [addr] && asmList == old(asmList) + [asmText]
    {
      addrList := addrList + [addr];
      asmList := asmList + [asmText];
    }

    method PushInsCode(addr: nat, asmText: string, code: nat)
      modifies this`addrList, this`asmList, this`codeList
      ensures addrList == old(addrList) + [addr] && asmList == old(asmList) + [asmText]
      ensures codeList == old(codeList) + [code]
    {
      PushInsOnly(addr, asmText);
      codeList := codeList + [code];
    }

    /** One line of an sm_5x/6x disassembly. Lines that start or fill a group follow `FeedGroupLine`. */
    method FeedSm5x6x(pl: Line) returns (r: Result<(), FeederError>)
      modifies this
      ensures (pState, addrList, asmList, codeList) ==
              (var next := FeedGroupLine(old(State()), pl);
               if next.Some? then (next.value.state, next.value.addrs, next.value.texts, next.value.codes)
               else (old(pState), old(addrList), old(asmList), old(codeList)))
      ensures r.Success? <==> FeedGroupLine(old(State()), pl).Some? || (old(pState) == Ready && IsOutside(pl))
      ensures currFuncName == if old(pState) == Ready then NameSet(pl, old(currFuncName)) else old(currFuncName)
      ensures archFamily == old(archFamily) || (pl.HeaderFlag? && old(pState) == Ready)
      ensures r.Failure? ==> r.error == if pl.HeaderFlag? && old(pState) == Ready then UnknownArch else InvalidOp
    {
      match pState {
        case Ready =>
          match pl {
            case FuncName(func) => currFuncName := func;
            case SectionName(sec) => currFuncName := sec;
            case HeaderFlag(archDigits) =>
              r := SwitchArch(archDigits);
              return;
            case CodeOnly(code) =>
              codeList := codeList + [code];
              pState := WaitForIns(3);
            case Others =>
            case _ => return Failure(InvalidOp);
          }
        case WaitForIns(left) =>
          match pl {
            case InsCode(addr, asmText, code) =>
              PushInsCode(addr, asmText, code);
              pState := AfterIns(left);
            case InsOnly(addr, asmText) =>
              PushInsOnly(addr, asmText);
              pState := WaitForCode(left);
            case _ => return Failure(InvalidOp);
          }
        case WaitForCode(left) =>
          match pl {
            case CodeOnly(code) =>
              codeList := codeList + [code];
              pState := AfterIns(left);
            case _ => return Failure(InvalidOp);
          }
      }
      return Success(());
    }

    /** One line of an sm_7x/8x disassembly: an instruction with the low word, then the high word. */
    method FeedSm7x8x(pl: Line) returns (r: Result<(), FeederError>)
      modifies this
      ensures old(pState) == Ready && pl.InsCode? ==>
                && r.Success?
                && State() == Progress(WaitForCode(1), old(addrList) + [pl.addr], old(asmList) + [pl.asmText],
                                       old(codeList) + [pl.code])
      ensures old(pState) == Ready && !pl.InsCode? ==>
                State() == old(State()) && (r.Success? <==> pl.CodeOnly? || IsOutside(pl))
      ensures currFuncName == if old(pState) == Ready then NameSet(pl, old(currFuncName)) else old(currFuncName)
      ensures old(pState) == WaitForCode(1) ==>
                && (r.Success? <==> pl.CodeOnly?)
                && State() == if pl.CodeOnly?
                              then Progress(Ready, old(addrList), old(asmList), old(codeList) + [pl.code])
                              else old(State())
      ensures old(pState) != Ready && old(pState) != WaitForCode(1) ==> r.Failure? && State() == old(State())
      ensures archFamily == old(archFamily) || (pl.HeaderFlag? && old(pState) == Ready)
      ensures r.Failure? ==> r.error == if pl.HeaderFlag? && old(pState) == Ready then UnknownArch else InvalidOp
    {
      if pState == Ready {
        match pl {
          case FuncName(func) => currFuncName := func;
          case SectionName(sec) => currFuncName := sec;
          case HeaderFlag(archDigits) =>
            r := SwitchArch(archDigits);
            return;
          case InsCode(addr, asmText, code) =>
            PushInsCode(addr, asmText, code);
            pState := WaitForCode(1);
          case CodeOnly(_) =>
          case Others =>
          case InsOnly(_, _) => return Failure(InvalidOp);
        }
      } else if pState == WaitForCode(1) && pl.CodeOnly? {
        codeList := codeList + [pl.code];
        pState := Ready;
      } else {
        return Failure(InvalidOp);
      }
      return Success(());
    }

    /** Zips the four lists as far as the shortest reaches, and starts over. */
    method Zip(codes: seq<nat>, ctrl: seq<nat>) returns (rs: seq<InsRecord>)
      modifies this`addrList, this`asmList, this`codeList
      ensures addrList == [] && asmList == [] && codeList == []
      ensures |rs| == Min(Min(|old(addrList)|, |old(asmList)|), Min(|codes|, |ctrl|))
      ensures forall i :: 0 <= i < |rs| ==> rs[i] == RecordAt(old(addrList), codes, old(asmList), ctrl, i)
    {
      var n := Min(Min(|addrList|, |asmList|), Min(|codes|, |ctrl|));
      rs := [];
      for i: nat := 0 to n
        invariant |rs| == i && forall k :: 0 <= k < i ==> rs[k] == RecordAt(addrList, codes, asmList, ctrl, k)
      {
        rs := rs + [InsRecord(addrList[i], codes[i], asmList[i], ctrl[i])];
      }
      addrList, asmList, codeList := [], [], [];
    }

    /** Pops the records of the collected sm_5x/6x words. A complete group pops its three records. */
    method IterPopIns5x6x() returns (r: Result<seq<InsRecord>, FeederError>)
      modifies this`addrList, this`asmList, this`codeList
      ensures r.Failure? <==> |old(codeList)| % 4 != 0
      ensures r.Failure? ==> r.error == Packing(BadLength)
      ensures r.Success? ==> addrList == [] && asmList == [] && codeList == []
      ensures r.Success? ==>
                var (ctrl, codes) := SplitWords5x6x(old(codeList));
                && |r.value| == Min(Min(|old(addrList)|, |old(asmList)|), |codes|)
                && forall i :: 0 <= i < |r.value| ==>
                     r.value[i] == RecordAt(old(addrList), codes, old(asmList), ctrl, i)
      ensures forall control: nat, ms: seq<GroupMember> ::
                |ms| == 3 && old(State()) == GroupRead(control, ms) ==>
                  r == Success(GroupRecords(control, ms))
    {
      var split := SplitIntList5x6x(codeList);
      if split.Failure? {
        return Failure(Packing(split.error));
      }
      var (ctrl, codes) := split.value;
      var rs := Zip(codes, ctrl);
      forall control: nat, ms: seq<GroupMember> |
        |ms| == 3 && old(State()) == GroupRead(control, ms)
        ensures rs == GroupRecords(control, ms)
      {
        GroupSplit(control, Codes(ms));
      }
      return Success(rs);
    }

    /** Pops the records of the collected sm_7x/8x words: two words an instruction. */
    method IterPopIns7x8x() returns (rs: seq<InsRecord>)
      modifies this`addrList, this`asmList, this`codeList
      ensures addrList == [] && asmList == [] && codeList == []
      ensures |rs| == Min(Min(|old(addrList)|, |old(asmList)|), |old(codeList)| / 2)
      ensures forall i :: 0 <= i < |rs| ==>
                var word := old(codeList)[2 * i] + old(codeList)[2 * i + 1] * WORD64;
                rs[i] == InsRecord(old(addrList)[i], WithoutControl(word), old(asmList)[i], ControlBits(word))
    {
      var combined: seq<nat> := [];
      for i: nat := 0 to |codeList| / 2
        invariant |combined| == i
        invariant forall k :: 0 <= k < i ==> combined[k] == codeList[2 * k] + codeList[2 * k + 1] * WORD64
      {
        combined := combined + [codeList[2 * i] + codeList[2 * i + 1] * WORD64];
      }
      var ctrl, codes := SplitCombined(combined);
      rs := Zip(codes, ctrl);
    }
  }

  /** Splits sm_7x/8x instruction words. */
  method SplitCombined(words: seq<nat>) returns (ctrl: seq<nat>, codes: seq<nat>)
    ensures |ctrl| == |codes| == |words|
    ensures forall i :: 0 <= i < |words| ==> ctrl[i] == ControlBits(words[i]) && codes[i] == WithoutControl(words[i])
  {
    ctrl, codes := [], [];
    for i: nat := 0 to |words|
      invariant |ctrl| == |codes| == i
      invariant forall k :: 0 <= k < i ==> ctrl[k] == ControlBits(words[k]) && codes[k] == WithoutControl(words[k])
    {
      ctrl := ctrl + [ControlBits(words[i])];
      codes := codes + [WithoutControl(words[i])];
    }
  }
}
