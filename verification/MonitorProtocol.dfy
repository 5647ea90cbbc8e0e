/**
The replica-set monitor under threads. Each section of the source that runs
under `_lock` is one atomic step of one thread; between two such sections any
other thread may step. `_checkConnectionLock` is part of the state, because a
thread keeps it over many sections. An index outside `_nodes`, or a failing
`verify` on `_master`, sends the thread to Fault.
*/
module MonitorProtocol {
  type Tid = nat
  type Address = string

  datatype Node = Node(addr: Address, ok: bool)

  datatype Option<T> = None | Some(value: T)

  /** Who waits for _check. */
  datatype Caller = GetMaster | Other

  /** Who waits for _checkConnection, and for what. */
  datatype Waiting =
    | Scan(i: nat, all: bool, caller: Caller)
    | Quick(i: nat, idx: nat, all: bool, caller: Caller)
    | OfMaster(all: bool)
    | OfSeed

  /** Places in _checkConnection, _checkHosts and _checkStatus, named by what comes next. */
  datatype Point =
    | Enter
    | MatchConn
    | Reply
    | TestHosts
    | ChangeHosts
    | Status
    | SetStatus(m: nat, host: Address)
    | AfterError
    | Leave

  datatype PC =
    | Idle
    | Fault
    | MasterAgain
    | Seeding
    | LookUpMaster(all: bool)
    | CheckMaster(conn: Address, all: bool)
    | CheckStart(all: bool, caller: Caller)
    | CheckScan(i: nat, all: bool, caller: Caller)
    | CheckScanned(i: nat, conn: Address, all: bool, caller: Caller)
    | CheckQuick(i: nat, all: bool, caller: Caller)
    | CheckQuickDone(i: nat, idx: nat, conn: Address, all: bool, caller: Caller)
    | CheckEnd(all: bool, caller: Caller)
    | CheckFailed(caller: Caller)
    | Conn(point: Point, conn: Address, offset: int, waiting: Waiting)

  datatype State = State(
    nodes: seq<Node>, master: int, nextSlave: nat,
    checkConnectionLock: Option<Tid>, pcs: map<Tid, PC>)
  {
    function At(t: Tid): PC { if t in pcs then pcs[t] else Idle }

    function Goto(t: Tid, pc: PC): State { this.(pcs := pcs[t := pc]) }

    /** `_nodes[k].ok = ok`, if k is an index. */
    function SetOk(k: nat, ok: bool): State
      requires k < |nodes|
    {
      this.(nodes := nodes[k := nodes[k].(ok := ok)])
    }
  }

  /** What the environment decides in a step: which way, which server, whether something worked, hosts listed, members added. */
  datatype Input = Input(way: nat, server: Address, flag: bool, listed: set<Address>, added: seq<Node>)

  const Initial: State := State([], -1, 0, None, map[])

  function Find(nodes: seq<Node>, server: Address): (x: int)
    ensures -1 <= x < |nodes|
    ensures x >= 0 ==> nodes[x].addr == server
  {
    FindFrom(nodes, server, 0)
  }

  function FindFrom(nodes: seq<Node>, server: Address, i: nat): (x: int)
    requires i <= |nodes|
    ensures -1 <= x < |nodes|
    ensures x >= 0 ==> nodes[x].addr == server
    decreases |nodes| - i
  {
    if i == |nodes| then -1 else if nodes[i].addr == server then i else FindFrom(nodes, server, i + 1)
  }

  /** _checkConnMatch_inlock. */
  predicate Matches(nodes: seq<Node>, conn: Address, offset: int) {
    0 <= offset < |nodes| && nodes[offset].addr == conn
  }

  /** The members whose address is listed, in their old order. */
  function Survivors(nodes: seq<Node>, listed: set<Address>): seq<Node> {
    if nodes == [] then []
    else (if nodes[0].addr in listed then [nodes[0]] else []) + Survivors(nodes[1..], listed)
  }

  /** The members once those not listed are erased and some new ones are added. */
  function Changed(nodes: seq<Node>, env: Input): seq<Node> { Survivors(nodes, env.listed) + env.added }

  // ----- the steps -----

  /** A thread with nothing to do starts one of the public operations. */
  function Begin(s: State, t: Tid, env: Input): State {
    match env.way % 6
    case 0 =>  // notifyFailure
      if 0 <= s.master < |s.nodes| && s.nodes[s.master].addr == env.server
      then s.SetOk(s.master, false).(master := -1) else s
    case 1 =>  // notifySlaveFailure
      var x := Find(s.nodes, env.server);
      if x >= 0 then s.SetOk(x, false) else s
    case 2 =>  // getSlave: a round of its loop
      if s.nodes != [] then
        var next := (s.nextSlave + 1) % |s.nodes|;
        if next < |s.nodes| then s.(nextSlave := next) else s.Goto(t, Fault)
      else s
    case 3 =>  // getMaster
      if s.master >= |s.nodes| then s.Goto(t, Fault)
      else if s.master >= 0 && s.nodes[s.master].ok then s
      else s.Goto(t, CheckStart(false, GetMaster))
    case 4 =>  // check
      s.Goto(t, if s.nodes == [] then Seeding else LookUpMaster(env.flag))
    case _ =>  // selectAndCheckNode that found no candidate
      s.Goto(t, CheckStart(false, Other))
  }

  function ReturnFromCheck(s: State, t: Tid, caller: Caller): State {
    s.Goto(t, if caller == GetMaster then MasterAgain else Idle)
  }

  function ReturnFromConn(s: State, t: Tid, pc: PC, isMaster: bool): (r: State)
    requires pc.Conn?
    ensures r == s.Goto(t, r.At(t)) && !r.At(t).Conn? && r.At(t) != Fault
  {
    s.Goto(t,
      match pc.waiting
      case Scan(i, all, caller) => if isMaster then CheckScanned(i, pc.conn, all, caller) else CheckQuick(i, all, caller)
      case Quick(i, idx, all, caller) =>
        if isMaster then CheckQuickDone(i, idx, pc.conn, all, caller) else CheckScan(i + 1, all, caller)
      case OfMaster(all) => if isMaster && !all then Idle else CheckStart(all, Other)
      case OfSeed => Seeding)
  }

  /** The operations outside _checkConnection. */
  function CheckStep(s: State, t: Tid, pc: PC, env: Input): State
    requires !pc.Conn? && pc != Idle && pc != Fault
  {
    match pc
    case MasterAgain =>
      if s.master < 0 then s.Goto(t, Idle)
      else if s.master >= |s.nodes| then s.Goto(t, Fault)
      else s.Goto(t, Idle)
    case Seeding =>  // the next seed server, or the check that ends the seeding
      s.Goto(t, if env.flag then Conn(Enter, env.server, -1, OfSeed) else CheckStart(true, Other))
    case LookUpMaster(all) =>
      if s.master < 0 then s.Goto(t, CheckStart(all, Other))
      else if s.master >= |s.nodes| then s.Goto(t, Fault)
      else if env.flag then s.Goto(t, CheckMaster(s.nodes[s.master].addr, all))
      else s.SetOk(s.master, false).Goto(t, CheckStart(all, Other))
    case CheckMaster(conn, all) =>  // `_master` is read again here, without the lock
      s.Goto(t, Conn(Enter, conn, s.master, OfMaster(all)))
    case CheckStart(all, caller) =>
      if !all && s.master >= |s.nodes| then s.Goto(t, Fault)
      else if !all && s.master >= 0 && s.nodes[s.master].ok then ReturnFromCheck(s, t, caller)
      else s.Goto(t, CheckScan(0, all, caller))
    case CheckScan(i, all, caller) =>
      if i >= |s.nodes| then s.Goto(t, CheckEnd(all, caller))
      else if env.flag then s.Goto(t, Conn(Enter, s.nodes[i].addr, i, Scan(i, all, caller)))
      else s.SetOk(i, false).Goto(t, CheckScan(i + 1, all, caller))
    case CheckScanned(i, conn, all, caller) =>
      if !Matches(s.nodes, conn, i) then s.Goto(t, CheckEnd(all, caller))
      else if !all then ReturnFromCheck(s.(master := i), t, caller)
      else s.(master := i).Goto(t, CheckQuick(i, all, caller))
    case CheckQuick(i, all, caller) =>
      var idx := Find(s.nodes, env.server);
      if env.way % 2 == 0 || idx < 0 then s.Goto(t, CheckScan(i + 1, all, caller))
      else if env.flag then s.Goto(t, Conn(Enter, s.nodes[idx].addr, idx, Quick(i, idx, all, caller)))
      else s.SetOk(idx, false).Goto(t, CheckScan(i + 1, all, caller))
    case CheckQuickDone(i, idx, conn, all, caller) =>
      if !Matches(s.nodes, conn, idx) then s.Goto(t, CheckEnd(all, caller))
      else if !all then ReturnFromCheck(s.(master := idx), t, caller)
      else s.(master := idx).Goto(t, CheckScan(i + 1, all, caller))
    case CheckEnd(all, caller) =>  // a master was found, or one more try, or none
      if env.way % 3 == 0 then ReturnFromCheck(s, t, caller)
      else if env.way % 3 == 1 then s.Goto(t, CheckStart(all, caller))
      else s.Goto(t, CheckFailed(caller))
    case CheckFailed(caller) =>
      ReturnFromCheck(s.(master := -1), t, caller)
  }

  /** _checkConnection, which holds `_checkConnectionLock` from Enter to Leave. */
  function ConnStep(s: State, t: Tid, pc: PC, env: Input): State
    requires pc.Conn?
  {
    match pc.point
    case Enter =>
      if s.checkConnectionLock != None then s
      else s.(checkConnectionLock := Some(t)).Goto(t, pc.(point := MatchConn))
    case MatchConn =>
      if pc.offset >= 0 && !Matches(s.nodes, pc.conn, pc.offset)
      then ReturnFromConn(s.(checkConnectionLock := None), t, pc, false)
      else s.Goto(t, pc.(point := Reply))
    case Reply =>
      if env.way % 3 == 0 then s.Goto(t, pc.(point := AfterError))
      else if pc.offset >= |s.nodes| then s.Goto(t, Fault)  // the node's record is written in both remaining cases
      else if env.way % 3 == 1 then
        var after := if pc.offset >= 0 then s.SetOk(pc.offset, false) else s;
        ReturnFromConn(after.(checkConnectionLock := None), t, pc, false)
      else s.Goto(t, pc.(point := TestHosts))
    case TestHosts =>
      s.Goto(t, pc.(point := if env.way % 3 == 0 then AfterError else if env.way % 3 == 1 then Status else ChangeHosts))
    case ChangeHosts =>
      if env.way % 3 == 0 then s.Goto(t, pc.(point := Status))
      else if env.way % 3 == 1 then s.(nodes := Changed(s.nodes, env), master := -1).Goto(t, pc.(point := Status))
      else
        // an exception: from a host name before anything changes, or from connecting to
        // a new host, when members are erased already and the master is not forgotten yet
        s.(nodes := Changed(s.nodes, env)).Goto(t, pc.(point := AfterError))
    case Status =>
      var m := Find(s.nodes, env.server);
      if env.way % 3 == 0 then s.Goto(t, pc.(point := AfterError))
      else if env.way % 3 == 1 then s.Goto(t, pc.(point := Leave))
      else if m < 0 then s
      else s.Goto(t, pc.(point := SetStatus(m, env.server)))
    case SetStatus(m, _) =>
      if m >= |s.nodes| then s.Goto(t, Fault) else s.SetOk(m, env.flag).Goto(t, pc.(point := Status))
    case AfterError =>
      (if pc.offset >= 0 && Matches(s.nodes, pc.conn, pc.offset) then s.SetOk(pc.offset, false) else s)
      .Goto(t, pc.(point := Leave))
    case Leave =>
      ReturnFromConn(s.(checkConnectionLock := None), t, pc, env.flag)
  }

  function Step(s: State, t: Tid, env: Input): State {
    var pc := s.At(t);
    if pc == Idle then Begin(s, t, env)
    else if pc == Fault then s
    else if pc.Conn? then ConnStep(s, t, pc, env)
    else CheckStep(s, t, pc, env)
  }

  /** A run: threads step in any order, with any inputs. */
  function Execute(schedule: seq<(Tid, Input)>): State {
    if schedule == [] then Initial
    else
      var last := schedule[|schedule| - 1];
      Step(Execute(schedule[..|schedule| - 1]), last.0, last.1)
  }

  // ----- the invariant -----

  /** What a thread may rely on at its place. */
  predicate ThreadOk(s: State, t: Tid, pc: PC) {
    && (pc.Conn? && pc.point != Enter ==> s.checkConnectionLock == Some(t))
    && (pc.Conn? && pc.point == Reply && pc.offset >= 0 ==> Matches(s.nodes, pc.conn, pc.offset))
    && (pc.Conn? && pc.point.SetStatus? ==> Matches(s.nodes, pc.point.host, pc.point.m))
  }

  /** What holds in every run, exceptions or not. */
  predicate Held(s: State) {
    s.master >= -1 && forall t :: t in s.pcs ==> ThreadOk(s, t, s.pcs[t])
  }

  /** The master is a member or none, and no thread has failed. */
  ghost predicate Safe(s: State) {
    s.master < |s.nodes| && forall t :: s.At(t) != Fault
  }

  predicate SameAddresses(a: seq<Node>, b: seq<Node>) {
    |a| == |b| && forall i :: 0 <= i < |a| ==> a[i].addr == b[i].addr
  }

  /** The other threads' reliance survives a step that keeps the addresses and does not take their lock away. */
  lemma OthersKeep(s: State, r: State, t: Tid, pc: PC)
    requires Held(s) && r.master >= -1
    requires r.pcs == s.pcs[t := pc]
    requires ThreadOk(r, t, pc)
    requires SameAddresses(s.nodes, r.nodes) || s.checkConnectionLock == Some(t)
    requires forall u :: u != t && s.checkConnectionLock == Some(u) ==> r.checkConnectionLock == Some(u)
    ensures Held(r)
  {
    forall u | u in r.pcs && u != t ensures ThreadOk(r, u, r.pcs[u]) {
      assert ThreadOk(s, u, s.pcs[u]);
    }
  }

  /** The same when the thread stays where it is. */
  lemma NobodyMoves(s: State, r: State)
    requires Held(s) && r.master >= -1 && r.pcs == s.pcs
    requires SameAddresses(s.nodes, r.nodes) && r.checkConnectionLock == s.checkConnectionLock
    ensures Held(r)
  {
    forall u | u in r.pcs ensures ThreadOk(r, u, r.pcs[u]) {
      assert ThreadOk(s, u, s.pcs[u]);
    }
  }

  /** What a step of an operation that is not in _checkHosts does to the master and to its own thread. */
  predicate Harmless(s: State, t: Tid, r: State) {
    && (r.pcs == s.pcs || (t in r.pcs && r.pcs == s.pcs[t := r.pcs[t]]))
    && (s.master < |s.nodes| ==> r.master < |r.nodes| && (r.At(t) == Fault ==> s.At(t) == Fault))
  }

  lemma BeginKeeps(s: State, t: Tid, env: Input)
    requires Held(s) && s.At(t) == Idle
    ensures Held(Begin(s, t, env)) && SameAddresses(s.nodes, Begin(s, t, env).nodes)
    ensures Harmless(s, t, Begin(s, t, env))
  {
    hide Held, Find;
    HeldMaster(s);
    var r := Begin(s, t, env);
    if env.way % 6 == 2 && s.nodes != [] {
      assert (s.nextSlave + 1) % |s.nodes| < |s.nodes|;
    }
    if r.pcs == s.pcs {
      NobodyMoves(s, r);
    } else {
      OthersKeep(s, r, t, r.At(t));
    }
  }

  lemma HeldMaster(s: State)
    requires Held(s)
    ensures s.master >= -1
  {
  }

  lemma CheckKeeps(s: State, t: Tid, pc: PC, env: Input)
    requires Held(s) && !pc.Conn? && pc != Idle && pc != Fault && s.At(t) == pc
    ensures Held(CheckStep(s, t, pc, env)) && SameAddresses(s.nodes, CheckStep(s, t, pc, env).nodes)
    ensures Harmless(s, t, CheckStep(s, t, pc, env))
  {
    hide Held, Find, CheckStep;
    HeldMaster(s);
    CheckMoves(s, t, pc, env);
    CheckMasters(s, t, pc, env);
    var r := CheckStep(s, t, pc, env);
    OthersKeep(s, r, t, r.pcs[t]);
  }

  lemma CheckMoves(s: State, t: Tid, pc: PC, env: Input)
    requires s.master >= -1 && !pc.Conn? && pc != Idle && pc != Fault
    ensures var r := CheckStep(s, t, pc, env);
      && t in r.pcs && r.pcs == s.pcs[t := r.pcs[t]] && (r.pcs[t].Conn? ==> r.pcs[t].point == Enter)
      && r.checkConnectionLock == s.checkConnectionLock && SameAddresses(s.nodes, r.nodes)
  {
    hide Find;
  }

  lemma CheckMasters(s: State, t: Tid, pc: PC, env: Input)
    requires s.master >= -1 && !pc.Conn? && pc != Idle && pc != Fault
    ensures var r := CheckStep(s, t, pc, env);
      r.master >= -1 && (s.master < |s.nodes| ==> r.master < |r.nodes| && r.At(t) != Fault)
  {
    hide Find;
  }

  /** Points that write to a node or change the nodes. */
  predicate Writes(point: Point) { point in {Reply, ChangeHosts, AfterError} || point.SetStatus? }

  lemma ConnKeepsWriting(s: State, t: Tid, pc: PC, env: Input)
    requires Held(s) && t in s.pcs && s.pcs[t] == pc && pc.Conn? && Writes(pc.point)
    ensures Held(ConnStep(s, t, pc, env))
    ensures !LeavesMasterBehind(s, t, env) ==> Harmless(s, t, ConnStep(s, t, pc, env))
  {
    hide Find, Changed;
    assert ThreadOk(s, t, pc);
    hide Held, ReturnFromConn;
    HeldMaster(s);
    var r := ConnStep(s, t, pc, env);
    OthersKeep(s, r, t, r.pcs[t]);
  }

  lemma ConnKeeps(s: State, t: Tid, pc: PC, env: Input)
    requires Held(s) && t in s.pcs && s.pcs[t] == pc && pc.Conn?
    ensures Held(ConnStep(s, t, pc, env))
    ensures !LeavesMasterBehind(s, t, env) ==> Harmless(s, t, ConnStep(s, t, pc, env))
  {
    if Writes(pc.point) {
      ConnKeepsWriting(s, t, pc, env);
      return;
    }
    hide Find, Changed;
    assert ThreadOk(s, t, pc);
    hide Held, ReturnFromConn;
    HeldMaster(s);
    var r := ConnStep(s, t, pc, env);
    assert SameAddresses(s.nodes, r.nodes);
    if r != s {
      OthersKeep(s, r, t, r.pcs[t]);
    }
  }

  // ----- every run -----

  /** The step leaves _checkHosts by an exception. */
  predicate Throws(s: State, t: Tid, env: Input) {
    s.At(t).Conn? && s.At(t).point == ChangeHosts && env.way % 3 == 2
  }

  /** It does so when fewer members are left than the old master's index needs. */
  predicate LeavesMasterBehind(s: State, t: Tid, env: Input) {
    Throws(s, t, env) && s.master >= |Changed(s.nodes, env)|
  }

  /** Every step keeps what threads rely on. Safety it keeps exactly unless it leaves the master behind. */
  lemma StepKeeps(s: State, t: Tid, env: Input)
    requires Held(s)
    ensures Held(Step(s, t, env))
    ensures Safe(s) ==> (Safe(Step(s, t, env)) <==> !LeavesMasterBehind(s, t, env))
  {
    hide Begin, CheckStep, ConnStep, Changed;
    var pc := s.At(t);
    if pc == Idle {
      BeginKeeps(s, t, env);
    } else if pc != Fault {
      assert ThreadOk(s, t, s.pcs[t]);
      if pc.Conn? {
        ConnKeeps(s, t, pc, env);
        BehindIsUnsafe(s, t, env);
      } else {
        CheckKeeps(s, t, pc, env);
      }
    }
    if Safe(s) && !LeavesMasterBehind(s, t, env) {
      assert s.At(t) != Fault;
      var r := Step(s, t, env);
      assert Harmless(s, t, r);
      forall u ensures r.At(u) != Fault {
        assert s.At(u) != Fault;
      }
    }
  }

  lemma BehindIsUnsafe(s: State, t: Tid, env: Input)
    ensures LeavesMasterBehind(s, t, env) ==> Step(s, t, env).master >= |Step(s, t, env).nodes|
  {
    hide Changed, Begin, CheckStep;
  }

  lemma {:induction false} RunsHold(schedule: seq<(Tid, Input)>)
    ensures Held(Execute(schedule))
  {
    hide Step, Held;
    if schedule == [] {
      InitialHeld();
    } else {
      var last := schedule[|schedule| - 1];
      RunsHold(schedule[..|schedule| - 1]);
      StepKeeps(Execute(schedule[..|schedule| - 1]), last.0, last.1);
    }
  }

  lemma InitialHeld()
    ensures Held(Initial) && Safe(Initial)
  {
  }

  /** All states on the way of a run are safe. */
  ghost predicate SafeThroughout(schedule: seq<(Tid, Input)>) {
    forall k :: 0 <= k <= |schedule| ==> Safe(Execute(schedule[..k]))
  }

  ghost predicate NeverBehind(schedule: seq<(Tid, Input)>) {
    forall k :: 0 <= k < |schedule| ==> !LeavesMasterBehind(Execute(schedule[..k]), schedule[k].0, schedule[k].1)
  }

  lemma {:induction false} StepOfRun(schedule: seq<(Tid, Input)>, k: nat)
    requires k < |schedule|
    ensures Execute(schedule[..k + 1]) == Step(Execute(schedule[..k]), schedule[k].0, schedule[k].1)
  {
    hide Step;
    assert schedule[..k + 1][..k] == schedule[..k];
  }

  /**
   In a run of any threads the master index stays valid and no access faults,
   if and only if no exception out of _checkHosts leaves fewer members than
   the index of the old master needs.
   */
  lemma RunsAreSafe(schedule: seq<(Tid, Input)>)
    ensures SafeThroughout(schedule) <==> NeverBehind(schedule)
  {
    hide Step, Execute, Held, Safe, LeavesMasterBehind;
    if SafeThroughout(schedule) {
      forall k | 0 <= k < |schedule|
        ensures !LeavesMasterBehind(Execute(schedule[..k]), schedule[k].0, schedule[k].1)
      {
        RunsHold(schedule[..k]);
        StepOfRun(schedule, k);
        StepKeeps(Execute(schedule[..k]), schedule[k].0, schedule[k].1);
        assert Safe(Execute(schedule[..k + 1]));
      }
    }
    if NeverBehind(schedule) {
      forall k | 0 <= k <= |schedule| ensures Safe(Execute(schedule[..k])) {
        SafeUpTo(schedule, k);
      }
    }
  }

  lemma {:induction false} SafeUpTo(schedule: seq<(Tid, Input)>, k: nat)
    requires NeverBehind(schedule) && k <= |schedule|
    ensures Safe(Execute(schedule[..k]))
  {
    hide Step, Held, Safe, LeavesMasterBehind;
    if k == 0 {
      InitialHeld();
    } else {
      SafeUpTo(schedule, k - 1);
      RunsHold(schedule[..k - 1]);
      StepOfRun(schedule, k - 1);
      StepKeeps(Execute(schedule[..k - 1]), schedule[k - 1].0, schedule[k - 1].1);
    }
  }

  /** Runs without such exceptions are safe. */
  lemma SafeWithoutThrows(schedule: seq<(Tid, Input)>)
    requires forall k :: 0 <= k < |schedule| ==> !Throws(Execute(schedule[..k]), schedule[k].0, schedule[k].1)
    ensures SafeThroughout(schedule)
  {
    hide Execute, Changed;
    RunsAreSafe(schedule);
  }

  /** Once the master is left behind, the next thread that asks for it fails. */
  lemma BehindCanFault(schedule: seq<(Tid, Input)>, t: Tid, env: Input)
    requires var s := Execute(schedule); s.master >= |s.nodes| && s.At(t) == Idle && env.way % 6 == 3
    ensures Execute(schedule + [(t, env)]).At(t) == Fault
  {
    hide CheckStep, ConnStep;
    Extend(schedule, t, env);
  }

  lemma Extend(schedule: seq<(Tid, Input)>, t: Tid, env: Input)
    ensures Execute(schedule + [(t, env)]) == Step(Execute(schedule), t, env)
  {
    hide Step;
    var longer := schedule + [(t, env)];
    assert longer[..|longer| - 1] == schedule;
  }

  // ----- a run that loses the master -----

  /** A state in which only thread 0 has done anything. */
  function Solo(nodes: seq<Node>, master: int, lock: Option<Tid>, pc: PC): State {
    State(nodes, master, 0, lock, map[0 := pc])
  }

  function Go(way: nat, server: Address, flag: bool): Input { Input(way, server, flag, {}, []) }

  /** Thread 0 steps. */
  lemma Next(schedule: seq<(Tid, Input)>, env: Input, r: State) returns (longer: seq<(Tid, Input)>)
    requires Step(Execute(schedule), 0, env) == r
    ensures Execute(longer) == r
  {
    hide Step;
    Extend(schedule, 0, env);
    longer := schedule + [(0, env)];
  }

  /** From the entry of _checkConnection to the change of the hosts. */
  lemma ToChange(before: seq<(Tid, Input)>, nodes: seq<Node>, master: int, conn: Address, offset: int, w: Waiting)
    returns (schedule: seq<(Tid, Input)>)
    requires Execute(before) == Solo(nodes, master, None, Conn(Enter, conn, offset, w))
    requires offset < 0 || Matches(nodes, conn, offset)
    ensures Execute(schedule) == Solo(nodes, master, Some(0), Conn(ChangeHosts, conn, offset, w))
  {
    hide Execute;
    schedule := Next(before, Go(0, conn, true), Solo(nodes, master, Some(0), Conn(MatchConn, conn, offset, w)));
    schedule := Next(schedule, Go(0, conn, true), Solo(nodes, master, Some(0), Conn(Reply, conn, offset, w)));
    schedule := Next(schedule, Go(2, conn, true), Solo(nodes, master, Some(0), Conn(TestHosts, conn, offset, w)));
    schedule := Next(schedule, Go(2, conn, true), Solo(nodes, master, Some(0), Conn(ChangeHosts, conn, offset, w)));
  }

  /** From the change of the hosts, left as it is, to the end of _checkConnection. */
  lemma ToLeave(before: seq<(Tid, Input)>, nodes: seq<Node>, master: int, conn: Address, offset: int, w: Waiting)
    returns (schedule: seq<(Tid, Input)>)
    requires Execute(before) == Solo(nodes, master, Some(0), Conn(ChangeHosts, conn, offset, w))
    ensures Execute(schedule) == Solo(nodes, master, Some(0), Conn(Leave, conn, offset, w))
  {
    hide Execute;
    schedule := Next(before, Go(0, conn, true), Solo(nodes, master, Some(0), Conn(Status, conn, offset, w)));
    schedule := Next(schedule, Go(1, conn, true), Solo(nodes, master, Some(0), Conn(Leave, conn, offset, w)));
  }

  /** A seed server is asked for the members. */
  lemma Asked(a: Address) returns (schedule: seq<(Tid, Input)>)
    ensures Execute(schedule) == Solo([], -1, Some(0), Conn(ChangeHosts, a, -1, OfSeed))
  {
    hide Execute, Find, ConnStep;
    RunsEmpty();
    schedule := Next([], Go(4, a, true), Solo([], -1, None, Seeding));
    schedule := Next(schedule, Go(0, a, true), Solo([], -1, None, Conn(Enter, a, -1, OfSeed)));
    schedule := ToChange(schedule, [], -1, a, -1, OfSeed);
  }

  /** It makes a and b the members. */
  lemma Seeded(a: Address, b: Address) returns (schedule: seq<(Tid, Input)>)
    ensures Execute(schedule) == Solo([Node(a, true), Node(b, true)], -1, None, Seeding)
  {
    hide Execute, Find, Begin, CheckStep;
    var members := [Node(a, true), Node(b, true)];
    schedule := Asked(a);
    assert Changed([], Input(1, a, true, {a, b}, members)) == members;
    schedule := Next(schedule, Input(1, a, true, {a, b}, members), Solo(members, -1, Some(0), Conn(Status, a, -1, OfSeed)));
    schedule := Next(schedule, Go(1, a, true), Solo(members, -1, Some(0), Conn(Leave, a, -1, OfSeed)));
    schedule := Next(schedule, Go(0, a, true), Solo(members, -1, None, Seeding));
  }

  lemma RunsEmpty()
    ensures Execute([]) == Initial
  {
  }

  /** a cannot be reached, and b, the second member, turns out to be the master. */
  lemma MasterFound(a: Address, b: Address) returns (schedule: seq<(Tid, Input)>)
    ensures Execute(schedule) == Solo([Node(a, false), Node(b, true)], 1, None, CheckQuick(1, true, Other))
  {
    hide Execute, Find;
    schedule := Seeded(a, b);
    var members := [Node(a, false), Node(b, true)];
    var up := [Node(a, true), Node(b, true)];
    assert up[0 := Node(a, false)] == members;
    var w := Scan(1, true, Other);
    schedule := Next(schedule, Go(0, a, false), Solo(up, -1, None, CheckStart(true, Other)));
    schedule := Next(schedule, Go(0, a, true), Solo(up, -1, None, CheckScan(0, true, Other)));
    schedule := Next(schedule, Go(0, a, false), Solo(members, -1, None, CheckScan(1, true, Other)));
    schedule := Next(schedule, Go(0, a, true), Solo(members, -1, None, Conn(Enter, b, 1, w)));
    schedule := ToChange(schedule, members, -1, b, 1, w);
    schedule := ToLeave(schedule, members, -1, b, 1, w);
    schedule := Next(schedule, Go(0, a, true), Solo(members, -1, None, CheckScanned(1, b, true, Other)));
    schedule := Next(schedule, Go(0, a, true), Solo(members, 1, None, CheckQuick(1, true, Other)));
  }

  /** The master b lists itself and a new host d in place of a, and connecting to d throws. */
  lemma Thrown(a: Address, b: Address, d: Address) returns (schedule: seq<(Tid, Input)>)
    requires a != b && a != d
    ensures Execute(schedule) == Solo([Node(b, true)], 1, Some(0), Conn(AfterError, b, 1, Quick(1, 1, true, Other)))
  {
    hide Execute, Begin, Survivors, FindFrom;
    schedule := MasterFound(a, b);
    var members := [Node(a, false), Node(b, true)];
    var w := Quick(1, 1, true, Other);
    SecondOfTwo(a, b, d);
    assert Step(Execute(schedule), 0, Go(1, b, true)) == Solo(members, 1, None, Conn(Enter, b, 1, w)) by { hide ConnStep; }
    schedule := Next(schedule, Go(1, b, true), Solo(members, 1, None, Conn(Enter, b, 1, w)));
    hide CheckStep;
    schedule := ToChange(schedule, members, 1, b, 1, w);
    var env := Input(2, b, true, {b, d}, []);
    schedule := Next(schedule, env, Solo([Node(b, true)], 1, Some(0), Conn(AfterError, b, 1, w)));
  }

  lemma SecondOfTwo(a: Address, b: Address, d: Address)
    requires a != b && a != d
    ensures var members := [Node(a, false), Node(b, true)];
      Find(members, b) == 1 && Changed(members, Input(2, b, true, {b, d}, [])) == [Node(b, true)]
  {
    var members := [Node(a, false), Node(b, true)];
    assert FindFrom(members, b, 1) == 1;
    assert members[1..] == [Node(b, true)] && Survivors([Node(b, true)], {b, d}) == [Node(b, true)];
  }

  /**
   After that the one member left is b, at 0, and the index of the master is 1:
   the next call of getMaster fails its verify.
   */
  lemma ThrowLosesMaster(a: Address, b: Address, d: Address) returns (schedule: seq<(Tid, Input)>)
    requires a != b && a != d
    ensures var s := Execute(schedule);
      s.nodes == [Node(b, true)] && s.master == 1 && s.At(1) == Fault
    ensures !SafeThroughout(schedule) && !NeverBehind(schedule)
  {
    hide Execute, CheckStep, ConnStep;
    var before := Thrown(a, b, d);
    Extend(before, 1, Go(3, b, true));
    schedule := before + [(1, Go(3, b, true))];
    assert schedule[..|schedule|] == schedule;
    assert !Safe(Execute(schedule[..|schedule|]));
    RunsAreSafe(schedule);
  }

  /** Only the holder of `_checkConnectionLock` changes which members there are, and only in _checkHosts. */
  lemma OnlyHolderRestructures(schedule: seq<(Tid, Input)>, t: Tid, env: Input)
    requires !SameAddresses(Execute(schedule).nodes, Step(Execute(schedule), t, env).nodes)
    ensures var s := Execute(schedule);
      && s.checkConnectionLock == Some(t)
      && s.At(t).Conn? && s.At(t).point == ChangeHosts
  {
    hide Begin, CheckStep, Execute;
    RunsHold(schedule);
    var s := Execute(schedule);
    var pc := s.At(t);
    if pc == Idle {
      BeginKeeps(s, t, env);
    } else if pc != Fault {
      assert ThreadOk(s, t, s.pcs[t]);
      if !pc.Conn? {
        CheckKeeps(s, t, pc, env);
      }
    }
  }

  /**
   At every point of _checkConnection between the match and the host change,
   and before every status write, the index still names the member it was
   looked up for, although `_lock` was released in between.
   */
  lemma IndexStaysValid(schedule: seq<(Tid, Input)>, t: Tid)
    ensures var s := Execute(schedule); var pc := s.At(t);
      && (pc.Conn? && pc.point == Reply && pc.offset >= 0 ==> Matches(s.nodes, pc.conn, pc.offset))
      && (pc.Conn? && pc.point.SetStatus? ==> Matches(s.nodes, pc.point.host, pc.point.m))
  {
    hide Execute;
    RunsHold(schedule);
    var s := Execute(schedule);
    assert t in s.pcs ==> ThreadOk(s, t, s.pcs[t]);
  }

  // ----- who is the master, and who is down -----

  /**
   The master changes in five places and nowhere else: it is forgotten when it
   is reported as failed, when no master is found and when the members change;
   it is the member that answered as master, provided that member is still
   where it was, whether or not all members are being checked.
   */
  lemma MasterChanges(s: State, t: Tid, env: Input)
    ensures Step(s, t, env).master ==
      var pc := s.At(t);
      if pc == Idle && env.way % 6 == 0 && 0 <= s.master < |s.nodes| && s.nodes[s.master].addr == env.server then -1
      else if pc.CheckScanned? && Matches(s.nodes, pc.conn, pc.i) then pc.i
      else if pc.CheckQuickDone? && Matches(s.nodes, pc.conn, pc.idx) then pc.idx
      else if pc.CheckFailed? then -1
      else if pc.Conn? && pc.point == ChangeHosts && env.way % 3 == 1 then -1
      else s.master
  {
    hide Find, Changed;
  }

  /** A member reported as failed, the master or another, is down afterwards; all others are as they were. */
  lemma FailuresAreRecorded(s: State, t: Tid, env: Input, k: nat)
    requires s.At(t) == Idle && k < |s.nodes| && s.nodes[k].addr == env.server
    requires (env.way % 6 == 0 && s.master == k) || (env.way % 6 == 1 && forall i :: 0 <= i < k ==> s.nodes[i].addr != env.server)
    ensures Step(s, t, env).nodes == s.nodes[k := Node(env.server, false)]
  {
    if env.way % 6 == 1 {
      FindsFirst(s.nodes, env.server, k, 0);
    }
  }

  lemma {:induction false} FindsFirst(nodes: seq<Node>, server: Address, k: nat, i: nat)
    requires i <= k < |nodes| && nodes[k].addr == server && forall j :: i <= j < k ==> nodes[j].addr != server
    ensures FindFrom(nodes, server, i) == k
    decreases k - i
  {
    if i < k {
      FindsFirst(nodes, server, k, i + 1);
    }
  }

  /** A member whose connection failed is down, provided it is still where it was. */
  lemma ErrorsAreRecorded(s: State, t: Tid, env: Input)
    requires s.At(t).Conn? && s.At(t).point == AfterError && Matches(s.nodes, s.At(t).conn, s.At(t).offset)
    ensures var k := s.At(t).offset;
      Step(s, t, env).nodes == s.nodes[k := Node(s.At(t).conn, false)]
  {
  }

  /** A thread that found the master holds its index and goes back to its caller, unless it checks all members. */
  lemma FoundMasterReturns(s: State, t: Tid, env: Input)
    requires s.At(t).CheckScanned? && !s.At(t).all && Matches(s.nodes, s.At(t).conn, s.At(t).i)
    ensures var pc, r := s.At(t), Step(s, t, env);
      r.master == pc.i && r.At(t) == if pc.caller == GetMaster then MasterAgain else Idle
  {
  }
}
