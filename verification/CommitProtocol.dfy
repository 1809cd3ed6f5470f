/**
 * The commit control plane over whole runs: devices stage commits and submit them to the
 * Delivery Service, answers are lost or late, the log is replayed and pruned, devices fall
 * behind and rejoin.  A device's group state is the list of commits it was built from, so two
 * devices can read each other's messages exactly when their lists agree.
 */
module CommitProtocol {
  import opened Common
  import opened CommitLog

  type History = seq<Commit>

  // ---------------------------------------------------------------- client decisions

  datatype SubmitOutcome = Committed | LostRace | Failed

  datatype Resolution = Adopt | Rollback

  /** Whether a staged commit is kept, given what the log holds at its epoch. */
  function Resolve(outcome: SubmitOutcome, ours: Commit, stored: Option<Commit>): Resolution {
    match outcome
    case Committed => Adopt
    case _ => if stored == Some(ours) then Adopt else Rollback
  }

  datatype ReplayStep = Apply | GapRecover | Wait

  function Classify(current: nat, next: Option<int>): ReplayStep {
    match next
    case None => Wait
    case Some(e) => if e == current then Apply else GapRecover
  }

  predicate MayRejoin(registered: bool, isMember: bool) {
    registered && isMember
  }

  // ---------------------------------------------------------------- states

  /** A submission on the wire: a commit built on the history `base`. */
  datatype Request = Request(device: Device, base: History, commit: Commit, joining: bool,
                             publishes: bool, invited: seq<Device>)
  {
    function Result(): History {
      base + [commit]
    }

    function Welcomes(n: nat): (ws: seq<WelcomeOut<History>>)
      requires n <= |invited|
      ensures |ws| == n && forall i :: 0 <= i < n ==> ws[i] == WelcomeOut(invited[i], Result())
    {
      if n == 0 then [] else Welcomes(n - 1) + [WelcomeOut(invited[n - 1], Result())]
    }

    function Body(): Submission<History> {
      Submission(|base|, commit, if publishes then Some(Result()) else None, Welcomes(|invited|))
    }
  }

  /**
   * A device's stored group.  `Tentative` is an external join that is already written locally
   * but not yet settled; `pending` is a commit staged on top of `history`.
   */
  datatype Local = NoGroup
                 | Member(history: History, pending: Option<Commit>)
                 | Tentative(base: History, commit: Commit)

  /** `op` is the submission the device is waiting on, under its conversation lock. */
  datatype Client = Client(local: Local, op: Option<Request>)

  datatype Report = Report(device: Device, epoch: nat)

  /** A message, and the history whose keys it was encrypted under. */
  datatype Sealed = Sealed(sender: Device, history: History)

  /** A prune under way: it reads the head, then the roster, then the reports, and then deletes below the floor. */
  datatype Pruner = HeadRead(head: int) | RosterRead(head: int, devices: seq<Device>) | Ready(floor: int)

  /** `log` is every commit ever accepted and `low` the first epoch still retained. */
  datatype State = State(
    log: History,
    low: nat,
    sv: Service<History>,
    registered: set<Device>,
    members: set<Device>,
    clients: map<Device, Client>,
    sent: set<Request>,
    accepted: set<Request>,
    rejected: set<Request>,
    infos: set<History>,
    reports: set<Report>,
    sealed: set<Sealed>,
    prunes: map<nat, Pruner>)
  {
    ghost function Head(): int {
      HeadEpoch(sv.rows.Keys)
    }

    function Local(d: Device): Local {
      if d in clients then clients[d].local else NoGroup
    }

    predicate Idle(d: Device) {
      d in clients && clients[d].op.None?
    }

    predicate Landed(h: History) {
      h <= log
    }
  }

  ghost predicate IsNext(keys: set<int>, from: int, e: int) {
    e in keys && from <= e && forall k: int :: k in keys && from <= k ==> e <= k
  }

  /** The first retained epoch at or after `from`. */
  ghost function NextRow(keys: set<int>, from: int): Option<int> {
    if exists e :: IsNext(keys, from, e) then
      var e :| IsNext(keys, from, e);
      Some(e)
    else None
  }

  /** The replay loop's next row is the first one the catch-up read returns. */
  lemma NextRowIsFirstFetched(rows: map<int, Commit>, from: int, out: seq<Row>)
    requires ListsFrom(rows, from, out)
    ensures NextRow(rows.Keys, from) == if out == [] then None else Some(out[0].epoch)
  {
    if out == [] {
      assert forall e: int :: e in rows ==> e < from;
    } else {
      forall k: int | k in rows.Keys && from <= k
        ensures out[0].epoch <= k
      {
        var i :| 0 <= i < |out| && out[i] == Row(k, rows[k]);
      }
      assert IsNext(rows.Keys, from, out[0].epoch);
    }
  }

  ghost predicate Initial(s: State, founder: Device) {
    && s.log == [] && s.low == 0 && s.sv == Service(map[], None, map[], map[])
    && founder in s.clients
    && (forall d :: d in s.clients ==>
          s.clients[d] == Client(if d == founder then Member([], None) else NoGroup, None))
    && s.sent == {} && s.accepted == {} && s.rejected == {} && s.infos == {} && s.reports == {}
    && s.sealed == {} && s.prunes == map[]
  }

  // ---------------------------------------------------------------- steps

  /** What the group library makes of a row that bridges the device's epoch. */
  datatype Processed = Merged | Unchanged | Dropped

  datatype PrunePhase = ReadHead | ReadRoster(devices: seq<Device>) | ReadReports | DeleteRows

  datatype Step =
    | ChangeRoster(registered: set<Device>, members: set<Device>)
    | Stage(d: Device, commit: Commit, publishes: bool, invited: seq<Device>)
    | StageJoin(d: Device, commit: Commit, publishes: bool)
    | Deliver(req: Request)
    | Settle(d: Device, outcome: SubmitOutcome, readable: bool)
    | MergePending(d: Device)
    | Send(d: Device)
    | Crash(d: Device)
    | Replay(d: Device, how: Processed)
    | Forget(d: Device)
    | ApplyWelcome(d: Device)
    | Publish(d: Device)
    | DeliverInfo(h: History)
    | SendReport(d: Device)
    | DeliverReport(report: Report)
    | FileReport(device: Device, epoch: int)
    | Prune(id: nat, phase: PrunePhase)

  function Staged(s: State, step: Step): Request
    requires step.Stage? && s.Local(step.d).Member?
  {
    Request(step.d, s.Local(step.d).history, step.commit, false, step.publishes, step.invited)
  }

  function StagedJoin(s: State, step: Step): Request
    requires step.StageJoin? && s.sv.groupInfo.Some?
  {
    Request(step.d, s.sv.groupInfo.value.blob, step.commit, true, step.publishes, [])
  }

  ghost predicate Enabled(s: State, step: Step) {
    match step
    case ChangeRoster(_, _) => true
    case Stage(d, c, _, _) => s.Idle(d) && s.Local(d).Member? && c.author == d && Staged(s, step) !in s.sent
    case StageJoin(d, c, _) =>
      s.Idle(d) && MayRejoin(d in s.registered, d in s.members) && s.sv.groupInfo.Some? && c.author == d
      && StagedJoin(s, step) !in s.sent
    case Deliver(req) => req in s.sent
    case Settle(d, outcome, _) =>
      && d in s.clients && s.clients[d].op.Some?
      && (outcome == Committed ==> s.clients[d].op.value in s.accepted)
      && (outcome == LostRace ==> s.clients[d].op.value in s.rejected)
    case MergePending(d) => s.Local(d).Member?
    case Send(d) => !s.Local(d).NoGroup?
    case Crash(d) => d in s.clients
    case Replay(d, _) => s.Idle(d) && s.Local(d).Member?
    case Forget(d) => d in s.clients
    case ApplyWelcome(d) => d in s.clients && d in s.sv.welcomes
    case Publish(d) => s.Local(d).Member?
    case DeliverInfo(h) => h in s.infos
    case SendReport(d) => s.Local(d).Member?
    case DeliverReport(r) => r in s.reports
    case FileReport(_, _) => true
    case Prune(id, phase) => CanPrune(s, id, phase)
  }

  ghost predicate CanPrune(s: State, id: nat, phase: PrunePhase) {
    match phase
    case ReadHead => id !in s.prunes
    case ReadRoster(devices) =>
      id in s.prunes && s.prunes[id].HeadRead? && forall d :: d in devices <==> d in s.registered && d in s.members
    case ReadReports => id in s.prunes && s.prunes[id].RosterRead?
    case DeleteRows => id in s.prunes && s.prunes[id].Ready?
  }

  /** The history a device has stored, settled or not. */
  function Held(local: Local): Option<History> {
    match local
    case NoGroup => None
    case Member(h, _) => Some(h)
    case Tentative(b, c) => Some(b + [c])
  }

  /** Loading a group merges whatever is pending on it. */
  function Loaded(local: Local): Local {
    if local.Member? && local.pending.Some? then Member(local.history + [local.pending.value], None) else local
  }

  /** The device's group after its submission is settled. */
  function SettledLocal(local: Local, req: Request, r: Resolution): Local {
    match r
    case Adopt =>
      (match local
       case NoGroup => NoGroup
       case Member(h, p) => if p.None? then local else Member(h + [p.value], None)
       case Tentative(b, c) => Member(b + [c], None))
    case Rollback =>
      if req.joining then NoGroup
      else if local.Member? then Member(local.history, None) else local
  }

  function Stored(s: State, epoch: int, readable: bool): Option<Commit> {
    if readable && epoch in s.sv.rows then Some(s.sv.rows[epoch]) else None
  }

  /** The device's group after one turn of the replay loop. */
  function ReplayedLocal(d: Device, h: History, pending: Option<Commit>, row: Commit, how: Processed): Local {
    match how
    case Dropped => NoGroup
    case Unchanged => Member(h, None)
    case Merged =>
      if row.author != d then Member(h + [row], None)
      else if pending.Some? then Member(h + [pending.value], None)
      else Member(h, None)
  }

  ghost function LocalAfterReplay(s: State, d: Device, how: Processed): Local
    requires s.Local(d).Member?
  {
    var h := s.Local(d).history;
    match Classify(|h|, NextRow(s.sv.rows.Keys, |h|))
    case Wait => Member(h, None)
    case GapRecover => NoGroup
    case Apply => ReplayedLocal(d, h, s.Local(d).pending, s.sv.rows[|h|], how)
  }

  function Accept(s: State, req: Request): State {
    s.(log := s.log + [req.commit], sv := Won(s.sv, req.Body()), accepted := s.accepted + {req})
  }

  function SetLocal(s: State, d: Device, local: Local): State
    requires d in s.clients
  {
    s.(clients := s.clients[d := s.clients[d].(local := local)])
  }

  function SetClient(s: State, d: Device, c: Client): State {
    s.(clients := s.clients[d := c])
  }

  ghost function Next(s: State, step: Step): State
    requires Enabled(s, step)
  {
    match step
    case ChangeRoster(registered, members) => s.(registered := registered, members := members)
    case Stage(d, c, _, _) =>
      var req := Staged(s, step);
      SetClient(s, d, Client(Member(req.base, Some(c)), Some(req))).(sent := s.sent + {req})
    case StageJoin(d, c, _) =>
      var req := StagedJoin(s, step);
      SetClient(s, d, Client(Tentative(req.base, c), Some(req))).(sent := s.sent + {req})
    case Deliver(req) =>
      if |req.base| == s.Head() then Accept(s, req) else s.(rejected := s.rejected + {req})
    case Settle(d, outcome, readable) =>
      var req := s.clients[d].op.value;
      var r := Resolve(outcome, req.commit, Stored(s, |req.base|, readable));
      SetClient(s, d, Client(SettledLocal(s.clients[d].local, req, r), None))
    case MergePending(d) => SetLocal(s, d, Loaded(s.Local(d)))
    case Send(d) =>
      var m := Loaded(s.Local(d));
      SetLocal(s, d, m).(sealed := s.sealed + {Sealed(d, Held(m).value)})
    case Crash(d) =>
      var m := s.clients[d].local;
      SetClient(s, d, Client(if m.Tentative? then Member(m.base + [m.commit], None) else m, None))
    case Replay(d, how) => SetLocal(s, d, LocalAfterReplay(s, d, how))
    case Forget(d) => SetLocal(s, d, NoGroup)
    case ApplyWelcome(d) => SetLocal(s, d, Member(s.sv.welcomes[d].blob, None))
    case Publish(d) => s.(infos := s.infos + {s.Local(d).history})
    case DeliverInfo(h) => s.(sv := s.sv.(groupInfo := Published(s.sv.groupInfo, |h|, h)))
    case SendReport(d) => s.(reports := s.reports + {Report(d, |s.Local(d).history|)})
    case DeliverReport(r) => s.(sv := s.sv.(since := Filed(s.sv.since, r.device, r.epoch)))
    case FileReport(d, epoch) => s.(sv := s.sv.(since := Filed(s.sv.since, d, epoch)))
    case Prune(id, phase) => Pruned(s, id, phase)
  }

  ghost function Pruned(s: State, id: nat, phase: PrunePhase): State
    requires CanPrune(s, id, phase)
  {
    match phase
    case ReadHead => s.(prunes := s.prunes[id := HeadRead(s.Head())])
    case ReadRoster(devices) => s.(prunes := s.prunes[id := RosterRead(s.prunes[id].head, devices)])
    case ReadReports =>
      var floor := FloorFor(s.prunes[id].devices, s.sv.since, s.prunes[id].head);
      s.(prunes := s.prunes[id := Ready(floor)])
    case DeleteRows =>
      var floor := s.prunes[id].floor;
      s.(sv := s.sv.(rows := DeleteBelow(s.sv.rows, floor)), low := NewLow(s, floor), prunes := s.prunes - {id})
  }

  /** The first epoch retained after a prune; the end of the log if nothing is. */
  function NewLow(s: State, floor: int): nat {
    if floor <= s.low then s.low else if floor <= |s.log| then floor else |s.log|
  }

  // ---------------------------------------------------------------- the invariant

  /** The rows are the log from `low` on, and hold at least the newest commit. */
  ghost predicate RowsMatch(s: State) {
    && s.low <= |s.log|
    && (s.log != [] ==> s.low < |s.log|)
    && (forall e: int :: e in s.sv.rows <==> s.low <= e < |s.log|)
    && (forall e: int :: e in s.sv.rows ==> s.sv.rows[e] == s.log[e])
  }

  ghost predicate ClientMatches(log: History, sent: set<Request>, d: Device, c: Client) {
    && (c.op.Some? ==> c.op.value in sent && c.op.value.device == d)
    && (match c.local
        case NoGroup => true
        case Member(h, p) =>
          && h <= log
          && (p.Some? && c.op.Some? ==>
                !c.op.value.joining && c.op.value.base == h && c.op.value.commit == p.value)
        case Tentative(b, x) =>
          c.op.Some? && c.op.value.joining && c.op.value.base == b && c.op.value.commit == x)
  }

  ghost predicate ClientsMatch(s: State) {
    forall d :: d in s.clients ==> ClientMatches(s.log, s.sent, d, s.clients[d])
  }

  ghost predicate RequestsMatch(s: State) {
    && (forall r :: r in s.sent ==> r.base <= s.log)
    && (forall r :: r in s.accepted ==> r.Result() <= s.log)
  }

  ghost predicate BlobsMatch(s: State) {
    && (s.sv.groupInfo.Some? ==>
          s.sv.groupInfo.value.blob <= s.log && s.sv.groupInfo.value.epoch == |s.sv.groupInfo.value.blob|)
    && (forall d :: d in s.sv.welcomes ==> s.sv.welcomes[d].blob <= s.log)
    && (forall h :: h in s.infos ==> h <= s.log)
  }

  ghost predicate ReportsMatch(s: State) {
    forall r :: r in s.reports ==> r.epoch <= |s.log|
  }

  /** Every message was encrypted under a history that the log bears out. */
  ghost predicate SealedMatch(s: State) {
    forall m :: m in s.sealed ==> m.history <= s.log
  }

  ghost predicate Inv(s: State) {
    RowsMatch(s) && ClientsMatch(s) && RequestsMatch(s) && BlobsMatch(s) && ReportsMatch(s) && SealedMatch(s)
  }

  /**
   * The steps that rely on a commit without asking the log.  A send, or a new staging, merges
   * whatever is pending; a send also uses an external join that is still open; replay of an own
   * row merges whatever is pending; a restart keeps an external join that was never settled.
   * Each goes wrong exactly when the commit is not the log's commit at that epoch.  A prune goes
   * wrong exactly when its floor is at or past the head by the time it deletes.
   */
  ghost predicate Diverges(s: State, step: Step)
    requires Enabled(s, step)
  {
    match step
    case MergePending(d) => !s.Landed(Held(Loaded(s.Local(d))).value)
    case Send(d) => !s.Landed(Held(Loaded(s.Local(d))).value)
    case Crash(d) => s.clients[d].local.Tentative? && !s.Landed(s.clients[d].local.base + [s.clients[d].local.commit])
    case Replay(d, how) =>
      var m := s.Local(d);
      && how == Merged && m.pending.Some?
      && Classify(|m.history|, NextRow(s.sv.rows.Keys, |m.history|)) == Apply
      && s.sv.rows[|m.history|].author == d && !s.Landed(m.history + [m.pending.value])
    case Prune(id, phase) => phase.DeleteRows? && s.log != [] && s.prunes[id].floor >= |s.log|
    case _ => false
  }

  // ---------------------------------------------------------------- one step at a time

  lemma HeadIsLogLength(s: State)
    requires RowsMatch(s)
    ensures s.Head() == |s.log|
  {
    if s.log == [] {
      if s.sv.rows.Keys != {} {
        Inhabited(s.sv.rows.Keys);
      }
    } else {
      assert |s.log| - 1 in s.sv.rows.Keys;
    }
  }

  lemma NextRowAt(s: State, e: nat)
    requires RowsMatch(s) && e <= |s.log|
    ensures NextRow(s.sv.rows.Keys, e) ==
            if e == |s.log| then None else Some(if e < s.low then s.low else e)
  {
    if e < |s.log| {
      assert IsNext(s.sv.rows.Keys, e, if e < s.low then s.low else e);
    }
  }

  lemma AcceptKeepsRows(s: State, req: Request)
    requires RowsMatch(s) && |req.base| == |s.log|
    ensures RowsMatch(Accept(s, req))
  {
    assert forall e: int :: e in Accept(s, req).sv.rows <==> e in s.sv.rows || e == |s.log|;
  }

  lemma AcceptKeepsBlobs(s: State, req: Request)
    requires BlobsMatch(s) && req.base == s.log
    ensures BlobsMatch(Accept(s, req))
  {
    var t := Accept(s, req);
    assert t.log == req.Result();
    forall d | d in t.sv.welcomes
      ensures t.sv.welcomes[d].blob <= t.log
    {
      WelcomesFrom(s.sv.welcomes, req.Welcomes(|req.invited|), d);
    }
  }

  lemma AcceptKeepsClients(s: State, req: Request)
    requires ClientsMatch(s)
    ensures ClientsMatch(Accept(s, req))
  {
    var t := Accept(s, req);
    forall d | d in t.clients
      ensures ClientMatches(t.log, t.sent, d, t.clients[d])
    {
      assert ClientMatches(s.log, s.sent, d, s.clients[d]);
    }
  }

  lemma DeliverKeepsInv(s: State, req: Request)
    requires Inv(s) && req in s.sent
    ensures Inv(Next(s, Deliver(req)))
  {
    HeadIsLogLength(s);
    if |req.base| == s.Head() {
      assert req.base == s.log;
      assert Accept(s, req).log == req.Result();
      AcceptKeepsRows(s, req);
      AcceptKeepsBlobs(s, req);
      AcceptKeepsClients(s, req);
    }
  }

  lemma {:induction false} WelcomesFrom(before: map<Device, Welcome<History>>, sent: seq<WelcomeOut<History>>,
                                        d: Device)
    requires d in Delivered(before, sent)
    ensures (d in before && Delivered(before, sent)[d] == before[d])
         || (exists i :: 0 <= i < |sent| && Delivered(before, sent)[d] == Welcome(sent[i].blob, false))
    decreases |sent|
  {
    if sent != [] {
      var w := sent[|sent| - 1];
      if w.recipient == d {
        assert Delivered(before, sent)[d] == Welcome(w.blob, false);
      } else {
        WelcomesFrom(before, sent[..|sent| - 1], d);
      }
    }
  }

  /** A change to one device keeps the invariant exactly when the device still matches the log. */
  lemma ClientChange(s: State, d: Device, c: Client)
    requires Inv(s)
    ensures Inv(SetClient(s, d, c)) <==> ClientMatches(s.log, s.sent, d, c)
  {
    var t := SetClient(s, d, c);
    if ClientMatches(s.log, s.sent, d, c) {
      forall x | x in t.clients
        ensures ClientMatches(t.log, t.sent, x, t.clients[x])
      {
      }
    } else {
      assert !ClientMatches(t.log, t.sent, d, t.clients[d]);
    }
  }

  lemma StagingKeepsInv(s: State, d: Device, c: Client, req: Request)
    requires Inv(s) && req.device == d && req.base <= s.log && c.op == Some(req)
    requires c.local == if req.joining then Tentative(req.base, req.commit) else Member(req.base, Some(req.commit))
    ensures Inv(SetClient(s, d, c).(sent := s.sent + {req}))
  {
    var t := s.(sent := s.sent + {req});
    assert Inv(t) by {
      forall x | x in t.clients
        ensures ClientMatches(t.log, t.sent, x, t.clients[x])
      {
        assert ClientMatches(s.log, s.sent, x, s.clients[x]);
      }
    }
    ClientChange(t, d, c);
    assert SetClient(s, d, c).(sent := s.sent + {req}) == SetClient(t, d, c);
  }

  /**
   * With the answer in hand, a commit is adopted exactly when it landed and that can be told:
   * the service confirmed it, or its row can be read and has not been pruned.
   */
  lemma SettleIsExact(s: State, d: Device, outcome: SubmitOutcome, readable: bool)
    requires Inv(s) && Enabled(s, Settle(d, outcome, readable))
    ensures var req := s.clients[d].op.value;
            Resolve(outcome, req.commit, Stored(s, |req.base|, readable)) == Adopt <==>
            s.Landed(req.Result()) && (outcome == Committed || (readable && s.low <= |req.base|))
  {
    var req := s.clients[d].op.value;
    assert ClientMatches(s.log, s.sent, d, s.clients[d]);
    assert req.base <= s.log;
    if |req.base| < |s.log| {
      assert s.Landed(req.Result()) <==> s.log[|req.base|] == req.commit by {
        assert s.log[..|req.base| + 1] == s.log[..|req.base|] + [s.log[|req.base|]];
        assert req.Result()[|req.base|] == req.commit;
      }
    }
  }

  lemma SettleKeepsInv(s: State, d: Device, outcome: SubmitOutcome, readable: bool)
    requires Inv(s) && Enabled(s, Settle(d, outcome, readable))
    ensures Inv(Next(s, Settle(d, outcome, readable)))
  {
    var c := s.clients[d];
    var req := c.op.value;
    assert ClientMatches(s.log, s.sent, d, c);
    SettleIsExact(s, d, outcome, readable);
    var r := Resolve(outcome, req.commit, Stored(s, |req.base|, readable));
    ClientChange(s, d, Client(SettledLocal(c.local, req, r), None));
  }

  /** The submission landed, and the device can tell: it was confirmed, or its row can be read and was not pruned. */
  predicate KnownLanded(s: State, req: Request, outcome: SubmitOutcome, readable: bool) {
    s.Landed(req.Result()) && (outcome == Committed || (readable && s.low <= |req.base|))
  }

  /** The device's group still has the commit its open submission is about. */
  predicate StillStaged(c: Client) {
    c.op.Some? && (c.local.Tentative? || (c.local.Member? && c.local.pending.Some?))
  }

  /**
   * What a device holds once its submission is settled: the history with its commit if that
   * landed and it can tell, and otherwise the history it was built on, or no group if it was
   * joining.  Nothing else changes.
   */
  lemma SettleLeaves(s: State, d: Device, outcome: SubmitOutcome, readable: bool)
    requires Inv(s) && Enabled(s, Settle(d, outcome, readable)) && StillStaged(s.clients[d])
    ensures var req, t := s.clients[d].op.value, Next(s, Settle(d, outcome, readable));
            && t.Idle(d) && t == s.(clients := t.clients) && t.clients.Keys == s.clients.Keys
            && (forall e :: e in s.clients && e != d ==> t.clients[e] == s.clients[e])
            && t.Local(d) == if KnownLanded(s, req, outcome, readable) then Member(req.Result(), None)
                             else if req.joining then NoGroup else Member(req.base, None)
  {
    assert ClientMatches(s.log, s.sent, d, s.clients[d]);
    SettleIsExact(s, d, outcome, readable);
  }

  /** A device that has lost its staged commit since, or its group, keeps what it has unless it was joining and lost. */
  lemma SettleWithoutStaged(s: State, d: Device, outcome: SubmitOutcome, readable: bool)
    requires Inv(s) && Enabled(s, Settle(d, outcome, readable)) && !StillStaged(s.clients[d])
    ensures var req, t := s.clients[d].op.value, Next(s, Settle(d, outcome, readable));
            && t.Idle(d) && t == s.(clients := t.clients) && t.clients.Keys == s.clients.Keys
            && (forall e :: e in s.clients && e != d ==> t.clients[e] == s.clients[e])
            && t.Local(d) == if req.joining && !KnownLanded(s, req, outcome, readable) then NoGroup else s.Local(d)
  {
    assert ClientMatches(s.log, s.sent, d, s.clients[d]);
    SettleIsExact(s, d, outcome, readable);
  }

  lemma ReplayKeepsInv(s: State, d: Device, how: Processed)
    requires Inv(s) && Enabled(s, Replay(d, how))
    ensures Inv(Next(s, Replay(d, how))) <==> !Diverges(s, Replay(d, how))
  {
    var c := s.clients[d];
    var h := c.local.history;
    assert ClientMatches(s.log, s.sent, d, c);
    NextRowAt(s, |h|);
    if |h| < |s.log| {
      assert s.log[..|h| + 1] == s.log[..|h|] + [s.log[|h|]];
    }
    var after := LocalAfterReplay(s, d, how);
    ClientChange(s, d, c.(local := after));
  }

  /**
   * One turn of replay, whatever the group library does with a row: at the head the group stays
   * there, behind the retained rows it is dropped, and otherwise it moves on by the row at its
   * epoch, by its own pending commit if the row is its own, or not at all.  Nothing stays pending.
   */
  lemma ReplayLeaves(s: State, d: Device, how: Processed)
    requires Inv(s) && Enabled(s, Replay(d, how))
    ensures var h, p, t := s.Local(d).history, s.Local(d).pending, Next(s, Replay(d, how));
            && t == s.(clients := t.clients) && t.clients.Keys == s.clients.Keys && t.Idle(d)
            && (forall e :: e in s.clients && e != d ==> t.clients[e] == s.clients[e])
            && (h == s.log ==> t.Local(d) == Member(s.log, None))
            && (|h| < s.low ==> t.Local(d) == NoGroup)
            && (s.low <= |h| < |s.log| ==>
                  && (how == Dropped ==> t.Local(d) == NoGroup)
                  && (how == Unchanged ==> t.Local(d) == Member(h, None))
                  && (how == Merged && s.log[|h|].author != d ==> t.Local(d) == Member(s.log[..|h| + 1], None))
                  && (how == Merged && s.log[|h|].author == d ==>
                        t.Local(d) == Member(if p.Some? then h + [p.value] else h, None)))
  {
    var h := s.Local(d).history;
    assert ClientMatches(s.log, s.sent, d, s.clients[d]);
    NextRowAt(s, |h|);
    if |h| < |s.log| {
      assert s.log[..|h| + 1] == s.log[..|h|] + [s.log[|h|]];
    }
  }

  lemma MergeKeepsInv(s: State, d: Device)
    requires Inv(s) && Enabled(s, MergePending(d))
    ensures Inv(Next(s, MergePending(d))) <==> !Diverges(s, MergePending(d))
  {
    var c := s.clients[d];
    assert ClientMatches(s.log, s.sent, d, c);
    ClientChange(s, d, c.(local := Loaded(c.local)));
  }

  lemma SendKeepsInv(s: State, d: Device)
    requires Inv(s) && Enabled(s, Send(d))
    ensures Inv(Next(s, Send(d))) <==> !Diverges(s, Send(d))
  {
    var c, m := s.clients[d], Loaded(s.Local(d));
    var message := Sealed(d, Held(m).value);
    var t := s.(sealed := s.sealed + {message});
    assert ClientMatches(s.log, s.sent, d, c);
    if s.Landed(message.history) {
      assert Inv(t);
      ClientChange(t, d, c.(local := m));
      assert Next(s, Send(d)) == SetClient(t, d, c.(local := m));
    } else {
      assert message in Next(s, Send(d)).sealed;
    }
  }

  lemma CrashKeepsInv(s: State, d: Device)
    requires Inv(s) && Enabled(s, Crash(d))
    ensures Inv(Next(s, Crash(d))) <==> !Diverges(s, Crash(d))
  {
    var m := s.clients[d].local;
    assert ClientMatches(s.log, s.sent, d, s.clients[d]);
    ClientChange(s, d, Client(if m.Tentative? then Member(m.base + [m.commit], None) else m, None));
  }

  /** A prune keeps the invariant, and with it the head, exactly when its floor is below the head. */
  lemma PruneKeepsInv(s: State, id: nat)
    requires Inv(s) && Enabled(s, Prune(id, DeleteRows))
    ensures Inv(Next(s, Prune(id, DeleteRows))) <==> !Diverges(s, Prune(id, DeleteRows))
    ensures !Diverges(s, Prune(id, DeleteRows)) ==> Next(s, Prune(id, DeleteRows)).Head() == s.Head()
  {
    HeadIsLogLength(s);
    var t := Next(s, Prune(id, DeleteRows));
    assert RowsMatch(t) <==> !Diverges(s, Prune(id, DeleteRows));
    if RowsMatch(t) {
      HeadIsLogLength(t);
    }
  }

  /**
   * The floor a prune settles on is below the head exactly when there is no roster or some device
   * of it has not reported eight or more past the head, however old the head it read is.
   */
  lemma PlannedFloor(s: State, id: nat)
    requires Inv(s) && Enabled(s, Prune(id, ReadReports)) && s.log != [] && s.prunes[id].head <= |s.log|
    ensures var devices := s.prunes[id].devices;
            Next(s, Prune(id, ReadReports)).prunes[id].floor < |s.log| <==>
            devices == [] || SomeoneHolds(devices, s.sv.since, |s.log|)
  {
    FloorBelowHead(s.prunes[id].devices, s.sv.since, s.prunes[id].head, |s.log|);
  }

  /** A prune plans to take exactly the rows that are outdated by the head, the roster and the reports it read. */
  lemma PlannedRows(s: State, id: nat, e: nat)
    requires Enabled(s, Prune(id, ReadReports))
    ensures e < Next(s, Prune(id, ReadReports)).prunes[id].floor <==>
            Outdated(e, s.prunes[id].devices, s.sv.since, s.prunes[id].head)
  {
    FloorIsExact(s.prunes[id].devices, s.sv.since, s.prunes[id].head, e);
  }

  /** No report on file is past the head, and no prune under way has read or planned past it. */
  ghost predicate WithinHead(s: State) {
    && (forall d :: d in s.sv.since ==> s.sv.since[d] <= |s.log|)
    && (forall id :: id in s.prunes ==> PruneWithin(s.prunes[id], |s.log|))
  }

  predicate PruneWithin(p: Pruner, head: nat) {
    match p
    case HeadRead(h) => h <= head
    case RosterRead(h, _) => h <= head
    case Ready(floor) => floor == 0 || floor < head
  }

  /** The floor from an old head and from reports up to the head is below the head. */
  lemma FloorWithin(devices: seq<Device>, since: map<Device, int>, seen: int, head: nat)
    requires seen <= head && forall d :: d in since ==> since[d] <= head
    ensures PruneWithin(Ready(FloorFor(devices, since, seen)), head)
  {
    MinReportedIsLeast(devices, since);
  }

  /** Rosters, reports on file and prunes under way are not part of the invariant. */
  lemma RosterKeepsInv(s: State, t: State)
    requires Inv(s)
    requires t == s.(sv := s.sv.(since := t.sv.since), registered := t.registered, members := t.members,
                     prunes := t.prunes)
    ensures Inv(t)
  {
  }

  lemma BookkeepingKeepsInv(s: State, step: Step)
    requires Inv(s) && Enabled(s, step)
    requires step.ChangeRoster? || step.DeliverReport? || step.FileReport?
          || (step.Prune? && !step.phase.DeleteRows?)
    ensures Inv(Next(s, step)) && !Diverges(s, step)
  {
    RosterKeepsInv(s, Next(s, step));
  }

  lemma PublishingKeepsInv(s: State, step: Step)
    requires Inv(s) && Enabled(s, step) && (step.Publish? || step.DeliverInfo? || step.SendReport?)
    ensures Inv(Next(s, step)) && !Diverges(s, step)
  {
    if step.Publish? || step.SendReport? {
      assert ClientMatches(s.log, s.sent, step.d, s.clients[step.d]);
    }
  }

  lemma StageKeepsInv(s: State, step: Step)
    requires Inv(s) && Enabled(s, step) && (step.Stage? || step.StageJoin?)
    ensures Inv(Next(s, step)) && !Diverges(s, step)
  {
    if step.Stage? {
      assert ClientMatches(s.log, s.sent, step.d, s.clients[step.d]);
      var req := Staged(s, step);
      StagingKeepsInv(s, step.d, Client(Member(req.base, Some(step.commit)), Some(req)), req);
    } else {
      var req := StagedJoin(s, step);
      StagingKeepsInv(s, step.d, Client(Tentative(req.base, step.commit), Some(req)), req);
    }
  }

  lemma ReplacedKeepsInv(s: State, step: Step)
    requires Inv(s) && Enabled(s, step) && (step.Forget? || step.ApplyWelcome?)
    ensures Inv(Next(s, step)) && !Diverges(s, step)
  {
    var local := if step.Forget? then NoGroup else Member(s.sv.welcomes[step.d].blob, None);
    ClientChange(s, step.d, s.clients[step.d].(local := local));
  }

  /**
   * Every step keeps the whole invariant exactly when it does not rely, unchecked, on a commit
   * that never landed, and does not delete the head's row.
   */
  lemma StepKeepsInv(s: State, step: Step)
    requires Inv(s) && Enabled(s, step)
    ensures Inv(Next(s, step)) <==> !Diverges(s, step)
  {
    match step
    case Stage(_, _, _, _) => StageKeepsInv(s, step);
    case StageJoin(_, _, _) => StageKeepsInv(s, step);
    case Deliver(req) => DeliverKeepsInv(s, req);
    case Settle(d, outcome, readable) => SettleKeepsInv(s, d, outcome, readable);
    case MergePending(d) => MergeKeepsInv(s, d);
    case Send(d) => SendKeepsInv(s, d);
    case Crash(d) => CrashKeepsInv(s, d);
    case Replay(d, how) => ReplayKeepsInv(s, d, how);
    case Forget(_) => ReplacedKeepsInv(s, step);
    case ApplyWelcome(_) => ReplacedKeepsInv(s, step);
    case Publish(_) => PublishingKeepsInv(s, step);
    case DeliverInfo(_) => PublishingKeepsInv(s, step);
    case SendReport(_) => PublishingKeepsInv(s, step);
    case Prune(id, phase) =>
      if phase.DeleteRows? {
        PruneKeepsInv(s, id);
      } else {
        BookkeepingKeepsInv(s, step);
      }
    case _ => BookkeepingKeepsInv(s, step);
  }

  // ---------------------------------------------------------------- what single steps leave behind

  /** Everything but one device is as it was. */
  ghost predicate OnlyDevice(s: State, t: State, d: Device) {
    && t == s.(clients := t.clients) && t.clients.Keys == s.clients.Keys
    && forall e :: e in s.clients && e != d ==> t.clients[e] == s.clients[e]
  }

  /**
   * A restart forgets the open submission and nothing else: a staged commit stays pending, an
   * external join that was written down counts as the group.
   */
  lemma CrashLeaves(s: State, d: Device)
    requires d in s.clients
    ensures var t := Next(s, Crash(d));
            && OnlyDevice(s, t, d) && t.Idle(d) && Held(t.Local(d)) == Held(s.Local(d)) && !t.Local(d).Tentative?
            && (s.Local(d).Member? ==> t.Local(d) == s.Local(d))
            && (s.Local(d).Tentative? ==> t.Local(d).pending == None)
  {
  }

  /** Dropping the group keeps the submission; a Welcome replaces the group by the history it was made for. */
  lemma ReplacedLeaves(s: State, d: Device)
    requires d in s.clients
    ensures var t := Next(s, Forget(d));
            OnlyDevice(s, t, d) && t.Local(d) == NoGroup && t.clients[d].op == s.clients[d].op
    ensures d in s.sv.welcomes ==>
              var t := Next(s, ApplyWelcome(d));
              && OnlyDevice(s, t, d) && t.Local(d) == Member(s.sv.welcomes[d].blob, None)
              && t.clients[d].op == s.clients[d].op
  {
  }

  /**
   * A device may open an external join exactly if it is idle, registered, a member, and there is
   * a GroupInfo to join by.
   */
  lemma RejoinIsExact(s: State, d: Device, c: Commit, publishes: bool)
    requires c.author == d && forall base :: Request(d, base, c, true, publishes, []) !in s.sent
    ensures Enabled(s, StageJoin(d, c, publishes)) <==>
            s.Idle(d) && d in s.registered && d in s.members && s.sv.groupInfo.Some?
  {
  }

  /**
   * A submission that is not on the head is refused and changes nothing else, and its device can
   * then be told that it lost; one on the head is accepted, and its device can be told that.
   */
  lemma AnswersAreGiven(s: State, req: Request, readable: bool)
    requires Inv(s) && req in s.sent && req.device in s.clients && s.clients[req.device].op == Some(req)
    ensures var t := Next(s, Deliver(req));
            if |req.base| == |s.log| then
              && t.log == s.log + [req.commit] && req in t.accepted && t.rejected == s.rejected
              && Enabled(t, Settle(req.device, Committed, readable))
            else
              && |req.base| < |s.log| && t == s.(rejected := t.rejected) && t.rejected == s.rejected + {req}
              && Enabled(t, Settle(req.device, LostRace, readable))
  {
    HeadIsLogLength(s);
  }

  /** A refused submission was built on an epoch that somebody has won. */
  ghost predicate RefusalsMatch(s: State) {
    forall r :: r in s.rejected ==> |r.base| < |s.log|
  }

  lemma OnlyDeliverRefuses(s: State, step: Step)
    requires Enabled(s, step) && !step.Deliver?
    ensures Next(s, step).rejected == s.rejected && Next(s, step).log == s.log
  {
  }

  lemma DeliverKeepsRefusals(s: State, req: Request)
    requires Inv(s) && RefusalsMatch(s) && req in s.sent
    ensures RefusalsMatch(Next(s, Deliver(req)))
  {
    HeadIsLogLength(s);
  }

  lemma StepKeepsRefusals(s: State, step: Step)
    requires Inv(s) && RefusalsMatch(s) && Enabled(s, step)
    ensures RefusalsMatch(Next(s, step))
  {
    if step.Deliver? {
      DeliverKeepsRefusals(s, step.req);
    } else {
      OnlyDeliverRefuses(s, step);
    }
  }

  /** A history published and delivered is what a join is built on, unless a later one is there already. */
  lemma PublishArrives(s: State, d: Device) returns (s1: State, s2: State)
    requires Inv(s) && s.Local(d).Member?
    ensures var h := s.Local(d).history;
            && Enabled(s, Publish(d)) && s1 == Next(s, Publish(d)) && s1 == s.(infos := s1.infos)
            && Enabled(s1, DeliverInfo(h)) && s2 == Next(s1, DeliverInfo(h))
            && s2 == s1.(sv := s1.sv.(groupInfo := s2.sv.groupInfo))
            && InfoStored(s.sv.groupInfo, s2.sv.groupInfo, |h|, Some(h))
  {
    s1 := Next(s, Publish(d));
    s2 := Next(s1, DeliverInfo(s.Local(d).history));
  }

  /** A device's report, sent and delivered, is on file unless a greater one is; no other device's changes. */
  lemma ReportArrives(s: State, d: Device) returns (s1: State, s2: State)
    requires s.Local(d).Member?
    ensures var r := Report(d, |s.Local(d).history|);
            && Enabled(s, SendReport(d)) && s1 == Next(s, SendReport(d)) && s1 == s.(reports := s1.reports)
            && Enabled(s1, DeliverReport(r)) && s2 == Next(s1, DeliverReport(r))
            && s2 == s1.(sv := s1.sv.(since := s2.sv.since))
            && d in s2.sv.since && r.epoch <= s2.sv.since[d]
            && (s2.sv.since[d] == r.epoch || (d in s.sv.since && s2.sv.since[d] == s.sv.since[d]))
            && (forall e :: e != d ==> (e in s2.sv.since <==> e in s.sv.since))
            && (forall e :: e != d && e in s.sv.since ==> s2.sv.since[e] == s.sv.since[e])
  {
    s1 := Next(s, SendReport(d));
    s2 := Next(s1, DeliverReport(Report(d, |s.Local(d).history|)));
  }

  /** A prune reads the roster as it was last changed, and is over once it has deleted. */
  lemma PruneReadsRoster(s: State, registered: set<Device>, members: set<Device>, id: nat, devices: seq<Device>)
    requires id in s.prunes && s.prunes[id].HeadRead?
    ensures var t := Next(s, ChangeRoster(registered, members));
            && t == s.(registered := t.registered, members := t.members)
            && (Enabled(t, Prune(id, ReadRoster(devices))) <==>
                  forall d :: d in devices <==> d in registered && d in members)
  {
  }

  lemma PruneEnds(s: State, id: nat)
    requires Enabled(s, Prune(id, DeleteRows))
    ensures var t := Next(s, Prune(id, DeleteRows));
            && t == s.(sv := s.sv.(rows := t.sv.rows), low := t.low, prunes := t.prunes)
            && t.prunes == s.prunes - {id}
            && (forall e: int :: e in t.sv.rows <==>
                  e in s.sv.rows && (s.prunes[id].floor <= 0 || s.prunes[id].floor <= e))
  {
  }
}
