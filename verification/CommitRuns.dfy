/**
 * The commit control plane over whole runs: when no two devices ever hold or use different
 * histories at one epoch, what happens when the conditions for that fail, how long a device can
 * count on the rows it needs, and when replay alone brings it to the head.
 */
module CommitRuns {
  import opened Common
  import opened CommitLog
  import opened CommitProtocol

  // ---------------------------------------------------------------- whole runs

  /** A finite run: each state is the previous one after an enabled step. */
  ghost predicate Run(states: seq<State>, steps: seq<Step>) {
    && |states| == |steps| + 1
    && forall i :: 0 <= i < |steps| ==> Follows(states[i], steps[i], states[i + 1])
  }

  ghost predicate Follows(s: State, step: Step, t: State) {
    Enabled(s, step) && t == Next(s, step)
  }

  /** No step of the run relies on an unlanded commit or deletes the head's row. */
  ghost predicate Checked(states: seq<State>, steps: seq<Step>)
    requires Run(states, steps)
  {
    forall i :: 0 <= i < |steps| ==> Follows(states[i], steps[i], states[i + 1]) && !Diverges(states[i], steps[i])
  }

  lemma InitialInv(s: State, founder: Device)
    requires Initial(s, founder)
    ensures Inv(s)
  {
  }

  lemma {:induction false} RunInv(states: seq<State>, steps: seq<Step>, founder: Device, n: nat)
    requires Run(states, steps) && Initial(states[0], founder) && Checked(states, steps) && n < |states|
    ensures Inv(states[n])
  {
    if n == 0 {
      InitialInv(states[0], founder);
    } else {
      RunInv(states, steps, founder, n - 1);
      assert Follows(states[n - 1], steps[n - 1], states[n]);
      StepKeepsInv(states[n - 1], steps[n - 1]);
    }
  }

  /** A settled group of some device, or the history some message was encrypted under. */
  ghost predicate InUse(s: State, h: History) {
    (exists d :: HoldsSettled(s, d, h)) || (exists m :: m in s.sealed && m.history == h)
  }

  ghost predicate HoldsSettled(s: State, d: Device, h: History) {
    s.Local(d).Member? && s.Local(d).history == h
  }

  predicate Agree(g: History, h: History) {
    (|g| <= |h| ==> g <= h) && (|h| <= |g| ==> h <= g)
  }

  /** Of two histories in use the shorter is a prefix of the longer, so equal epochs mean equal keys. */
  ghost predicate ForkFree(s: State) {
    forall g, h :: InUse(s, g) && InUse(s, h) ==> Agree(g, h)
  }

  /** Whatever is in use is a prefix of the log. */
  lemma InUseLanded(s: State, h: History)
    requires Inv(s) && InUse(s, h)
    ensures s.Landed(h)
  {
    if d :| HoldsSettled(s, d, h) {
      assert ClientMatches(s.log, s.sent, d, s.clients[d]);
    }
  }

  lemma InvForkFree(s: State)
    requires Inv(s)
    ensures ForkFree(s)
  {
    forall g, h | InUse(s, g) && InUse(s, h)
      ensures Agree(g, h)
    {
      InUseLanded(s, g);
      InUseLanded(s, h);
    }
  }

  /**
   * Fork freedom over every run, whatever is lost, late, repeated, pruned or rejoined: every
   * settled group and every message's history is a prefix of the one log, and the head counts
   * the commits ever accepted.
   */
  lemma ForkFreedom(states: seq<State>, steps: seq<Step>, founder: Device, n: nat)
    requires Run(states, steps) && Initial(states[0], founder) && Checked(states, steps) && n < |states|
    ensures ForkFree(states[n]) && forall h :: InUse(states[n], h) ==> states[n].Landed(h)
    ensures states[n].Head() == |states[n].log|
  {
    RunInv(states, steps, founder, n);
    InvForkFree(states[n]);
    forall h | InUse(states[n], h)
      ensures states[n].Landed(h)
    {
      InUseLanded(states[n], h);
    }
    HeadIsLogLength(states[n]);
  }

  lemma HeldIsNearLog(s: State, d: Device)
    requires Inv(s) && Held(s.Local(d)).Some?
    ensures var h := Held(s.Local(d)).value;
            s.Landed(h) || (|h| > 0 && s.Landed(h[..|h| - 1]))
  {
    assert ClientMatches(s.log, s.sent, d, s.clients[d]);
    if s.Local(d).Tentative? {
      var b, c := s.Local(d).base, s.Local(d).commit;
      assert (b + [c])[..|b|] == b;
    }
  }

  /**
   * Two stored groups, joins still open included, agree exactly when both landed, or the one
   * that landed is shorter than the one that did not, or neither landed and they are equal.
   */
  lemma StoredGroupsAgree(s: State, d: Device, e: Device)
    requires Inv(s) && Held(s.Local(d)).Some? && Held(s.Local(e)).Some?
    ensures var g, h := Held(s.Local(d)).value, Held(s.Local(e)).value;
            Agree(g, h) <==>
            if s.Landed(g) then s.Landed(h) || |g| < |h| else if s.Landed(h) then |h| < |g| else g == h
  {
    var g, h := Held(s.Local(d)).value, Held(s.Local(e)).value;
    HeldIsNearLog(s, d);
    HeldIsNearLog(s, e);
    NearLogAgree(s.log, g, h);
  }

  lemma NearLogAgree(log: History, g: History, h: History)
    requires g <= log || (|g| > 0 && g[..|g| - 1] <= log)
    requires h <= log || (|h| > 0 && h[..|h| - 1] <= log)
    ensures Agree(g, h) <==> if g <= log then h <= log || |g| < |h| else if h <= log then |h| < |g| else g == h
  {
    ShorterIsPrefix(log, g, h);
    ShorterIsPrefix(log, h, g);
  }

  /** Of two such histories the shorter is a prefix of the longer exactly when it landed. */
  lemma ShorterIsPrefix(log: History, g: History, h: History)
    requires h <= log || (|h| > 0 && h[..|h| - 1] <= log)
    ensures |g| < |h| ==> (g <= h <==> g <= log)
    ensures |g| == |h| && g <= h ==> g == h
  {
    if |g| < |h| {
      assert h[..|h| - 1][..|g|] == h[..|g|];
    }
  }

  lemma StepExtendsLog(s: State, step: Step)
    requires Enabled(s, step)
    ensures s.log <= Next(s, step).log
    ensures s.accepted <= Next(s, step).accepted && s.sent <= Next(s, step).sent
  {
  }

  /** The log is only ever appended to: what was accepted at an epoch is accepted for good. */
  lemma {:induction false} LogAppendOnly(states: seq<State>, steps: seq<Step>, i: nat, j: nat)
    requires Run(states, steps) && i <= j < |states|
    ensures states[i].log <= states[j].log && states[i].accepted <= states[j].accepted
  {
    if i < j {
      LogAppendOnly(states, steps, i, j - 1);
      assert Follows(states[j - 1], steps[j - 1], states[j - 1 + 1]);
      StepExtendsLog(states[j - 1], steps[j - 1]);
    }
  }

  predicate NoLater(a: Option<GroupInfo<History>>, b: Option<GroupInfo<History>>) {
    a.None? || (b.Some? && a.value.epoch <= b.value.epoch)
  }

  lemma StepKeepsGroupInfo(s: State, step: Step)
    requires Enabled(s, step)
    ensures NoLater(s.sv.groupInfo, Next(s, step).sv.groupInfo)
  {
  }

  ghost predicate InfoRises(s: State, t: State) {
    NoLater(s.sv.groupInfo, t.sv.groupInfo)
  }

  lemma SentAtHead(s: State, req: Request)
    requires Inv(s) && req in s.sent && |req.base| == |s.log|
    ensures s.Head() == |s.log| && req.base == s.log
    ensures s.sv.groupInfo.Some? ==> s.sv.groupInfo.value.epoch <= |s.log|
  {
    HeadIsLogLength(s);
  }

  lemma AcceptStoresInfo(s: State, req: Request)
    requires req.publishes && req.base == s.log
    requires s.sv.groupInfo.Some? ==> s.sv.groupInfo.value.epoch <= |s.log|
    ensures var t := Accept(s, req);
            t.log == s.log + [req.commit] && t.sv.groupInfo == Some(GroupInfo(|t.log|, t.log))
  {
    WonIsExact(s.sv, req.Body());
  }

  /**
   * A publishing commit accepted at the head leaves the GroupInfo at the new head, so that the
   * next join starts there.
   */
  lemma PublishedAtHead(s: State, req: Request)
    requires Inv(s) && req in s.sent && req.publishes && |req.base| == |s.log|
    ensures var t := Next(s, Deliver(req));
            && t.log == s.log + [req.commit] && t.sv.groupInfo == Some(GroupInfo(|t.log|, t.log))
            && (forall join: Step :: join.StageJoin? ==> StagedJoin(t, join).base == t.log)
  {
    SentAtHead(s, req);
    AcceptStoresInfo(s, req);
  }

  lemma {:induction false} InfoRisesAlong(states: seq<State>, i: nat, j: nat)
    requires i <= j < |states| && forall k :: i <= k < j ==> InfoRises(states[k], states[k + 1])
    ensures InfoRises(states[i], states[j])
  {
    if i < j {
      InfoRisesAlong(states, i, j - 1);
      assert InfoRises(states[j - 1], states[j - 1 + 1]);
    }
  }

  /** What a joiner starts from never goes back, and always leads to a prefix of the log. */
  lemma GroupInfoMonotone(states: seq<State>, steps: seq<Step>, founder: Device, i: nat, j: nat)
    requires Run(states, steps) && Initial(states[0], founder) && Checked(states, steps) && i <= j < |states|
    ensures NoLater(states[i].sv.groupInfo, states[j].sv.groupInfo)
    ensures states[j].sv.groupInfo.Some? ==>
              && states[j].sv.groupInfo.value.blob <= states[j].log
              && states[j].sv.groupInfo.value.epoch == |states[j].sv.groupInfo.value.blob|
  {
    RunInv(states, steps, founder, j);
    forall k | i <= k < j
      ensures InfoRises(states[k], states[k + 1])
    {
      assert Follows(states[k], steps[k], states[k + 1]);
      StepKeepsGroupInfo(states[k], steps[k]);
    }
    InfoRisesAlong(states, i, j);
    assert InfoRises(states[i], states[j]);
  }

  lemma {:induction false} RunRefusals(states: seq<State>, steps: seq<Step>, founder: Device, n: nat)
    requires Run(states, steps) && Initial(states[0], founder) && Checked(states, steps) && n < |states|
    ensures RefusalsMatch(states[n])
  {
    if n > 0 {
      RunRefusals(states, steps, founder, n - 1);
      RunInv(states, steps, founder, n - 1);
      assert Follows(states[n - 1], steps[n - 1], states[n - 1 + 1]);
      StepKeepsRefusals(states[n - 1], steps[n - 1]);
    }
  }

  /**
   * In every run a device is told that it lost only when its epoch was won, and that it won only
   * when its commit landed.
   */
  lemma AnswersAreTrue(states: seq<State>, steps: seq<Step>, founder: Device, n: nat)
    requires Run(states, steps) && Initial(states[0], founder) && Checked(states, steps) && n < |steps|
    requires steps[n].Settle? && Enabled(states[n], steps[n])
    ensures var req := states[n].clients[steps[n].d].op.value;
            && (steps[n].outcome == LostRace ==> |req.base| < |states[n].log|)
            && (steps[n].outcome == Committed ==> states[n].Landed(req.Result()))
  {
    RunInv(states, steps, founder, n);
    RunRefusals(states, steps, founder, n);
    assert Follows(states[n], steps[n], states[n + 1]);
  }

  /** At most one commit is ever accepted at an epoch, and it is the one the log holds there. */
  lemma OneWinnerPerEpoch(states: seq<State>, steps: seq<Step>, founder: Device, i: nat, j: nat, a: Request, b: Request)
    requires Run(states, steps) && Initial(states[0], founder) && Checked(states, steps) && i <= j < |states|
    requires a in states[i].accepted && b in states[j].accepted && |a.base| == |b.base|
    ensures a.Result() == b.Result() && a.Result() <= states[j].log
    ensures a.base == b.base && a.commit == b.commit
  {
    RunInv(states, steps, founder, j);
    LogAppendOnly(states, steps, i, j);
    assert a in states[j].accepted;
    assert a.Result()[|a.base|] == a.commit && b.Result()[|b.base|] == b.commit;
    assert a.Result()[..|a.base|] == a.base && b.Result()[..|b.base|] == b.base;
  }

  // ---------------------------------------------------------------- when no step diverges

  /** No restart, send or new staging while the device's submission is open, and no report filed past the head. */
  ghost predicate Quiet(s: State, step: Step) {
    && (step.Crash? || step.MergePending? || step.Send? ==> s.Idle(step.d))
    && (step.FileReport? ==> step.epoch <= |s.log|)
  }

  ghost predicate QuietlyFollows(s: State, step: Step, t: State) {
    Follows(s, step, t) && Quiet(s, step)
  }

  /** Only a device with an open submission has a pending commit. */
  ghost predicate PendingIsOpen(s: State) {
    forall d :: d in s.clients && s.clients[d].local.Member? && s.clients[d].local.pending.Some? ==>
      s.clients[d].op.Some?
  }

  lemma QuietKeepsPendingOpen(s: State, step: Step)
    requires PendingIsOpen(s) && Enabled(s, step) && Quiet(s, step)
    ensures PendingIsOpen(Next(s, step))
  {
  }

  lemma QuietKeepsWithin(s: State, step: Step)
    requires Inv(s) && WithinHead(s) && Enabled(s, step) && Quiet(s, step)
    ensures WithinHead(Next(s, step))
  {
    var t := Next(s, step);
    if step.Prune? && step.phase.ReadHead? {
      HeadIsLogLength(s);
    } else if step.Prune? && step.phase.ReadReports? {
      assert PruneWithin(s.prunes[step.id], |s.log|);
      FloorWithin(s.prunes[step.id].devices, s.sv.since, s.prunes[step.id].head, |s.log|);
    }
    forall id | id in t.prunes
      ensures PruneWithin(t.prunes[id], |t.log|)
    {
      assert id in s.prunes ==> PruneWithin(s.prunes[id], |s.log|);
    }
  }

  lemma QuietNeverDiverges(s: State, step: Step)
    requires Inv(s) && PendingIsOpen(s) && WithinHead(s) && Enabled(s, step) && Quiet(s, step)
    ensures !Diverges(s, step)
  {
    if step.Crash? || step.Send? || step.MergePending? {
      assert ClientMatches(s.log, s.sent, step.d, s.clients[step.d]);
    } else if step.Prune? && step.phase.DeleteRows? {
      assert PruneWithin(s.prunes[step.id], |s.log|);
    }
  }

  lemma QuietStep(s: State, step: Step, t: State)
    requires Inv(s) && PendingIsOpen(s) && WithinHead(s) && QuietlyFollows(s, step, t)
    ensures Inv(t) && PendingIsOpen(t) && WithinHead(t)
  {
    QuietKeepsPendingOpen(s, step);
    QuietKeepsWithin(s, step);
    QuietNeverDiverges(s, step);
    StepKeepsInv(s, step);
  }

  /**
   * Fork freedom without looking at the log: a run in which no device restarts, sends or stages
   * anew inside its own open submission, and no report is filed past the head, never forks.
   */
  lemma {:induction false} QuietRunsNeverFork(states: seq<State>, steps: seq<Step>, founder: Device, n: nat)
    requires Run(states, steps) && Initial(states[0], founder) && n < |states|
    requires forall i :: 0 <= i < n ==> QuietlyFollows(states[i], steps[i], states[i + 1])
    ensures Inv(states[n]) && PendingIsOpen(states[n]) && WithinHead(states[n]) && ForkFree(states[n])
  {
    if n == 0 {
      InitialInv(states[0], founder);
    } else {
      QuietRunsNeverFork(states, steps, founder, n - 1);
      assert QuietlyFollows(states[n - 1], steps[n - 1], states[n - 1 + 1]);
      QuietStep(states[n - 1], steps[n - 1], states[n]);
    }
    InvForkFree(states[n]);
  }

  // ---------------------------------------------------------------- when the conditions fail

  function PlainRequest(d: Device, base: History, c: Commit): Request {
    Request(d, base, c, false, false, [])
  }

  /** Two devices at the head both stage a commit. */
  lemma BothStage(s: State, d: Device, e: Device, c: Commit, x: Commit) returns (s1: State, s2: State)
    requires d != e && s.Idle(d) && s.Idle(e) && c.author == d && x.author == e
    requires s.Local(d) == Member(s.log, None) && s.Local(e) == Member(s.log, None)
    requires PlainRequest(d, s.log, c) !in s.sent && PlainRequest(e, s.log, x) !in s.sent
    ensures Follows(s, Stage(d, c, false, []), s1) && Follows(s1, Stage(e, x, false, []), s2)
    ensures s2.log == s.log && s2.sv == s.sv && PlainRequest(e, s.log, x) in s2.sent
    ensures d in s2.clients && s2.clients[d] == Client(Member(s.log, Some(c)), Some(PlainRequest(d, s.log, c)))
    ensures e in s2.clients && s2.clients[e] == Client(Member(s.log, Some(x)), Some(PlainRequest(e, s.log, x)))
  {
    s1 := Next(s, Stage(d, c, false, []));
    s2 := Next(s1, Stage(e, x, false, []));
  }

  /** A staged commit at the head is delivered and settled: it wins. */
  lemma DeliverAndSettle(s: State, e: Device, x: Commit) returns (s1: State, s2: State)
    requires RowsMatch(s) && e in s.clients && PlainRequest(e, s.log, x) in s.sent
    requires s.clients[e] == Client(Member(s.log, Some(x)), Some(PlainRequest(e, s.log, x)))
    ensures Follows(s, Deliver(PlainRequest(e, s.log, x)), s1) && Follows(s1, Settle(e, Committed, true), s2)
    ensures s2.Local(e) == Member(s.log + [x], None) && s2.sealed == s.sealed
    ensures s2.clients == s.clients[e := Client(Member(s.log + [x], None), None)]
  {
    HeadIsLogLength(s);
    s1 := Next(s, Deliver(PlainRequest(e, s.log, x)));
    assert PlainRequest(e, s.log, x) in s1.accepted;
    s2 := Next(s1, Settle(e, Committed, true));
  }

  /** Two different commits on one history never agree. */
  lemma Siblings(h: History, c: Commit, x: Commit)
    requires c != x
    ensures !Agree(h + [c], h + [x])
  {
    assert (h + [c])[|h|] == c && (h + [x])[|h|] == x;
  }

  lemma SiblingsFork(s: State, h: History, c: Commit, x: Commit)
    requires c != x && InUse(s, h + [c]) && InUse(s, h + [x])
    ensures !ForkFree(s)
  {
    Siblings(h, c, x);
  }

  lemma SendMerges(s: State, d: Device, h: History, c: Commit) returns (t: State)
    requires d in s.clients && s.Local(d) == Member(h, Some(c))
    ensures Follows(s, Send(d), t) && t.Local(d) == Member(h + [c], None)
    ensures t == s.(clients := t.clients, sealed := t.sealed)
    ensures t.clients.Keys == s.clients.Keys && forall e :: e in s.clients && e != d ==> t.clients[e] == s.clients[e]
  {
    t := Next(s, Send(d));
  }

  /**
   * The condition is needed: from any state with two idle devices at the head, a send that
   * falls inside the first one's open submission leaves the two at one epoch with different groups.
   */
  lemma SendInsideSubmissionForks(s: State, d: Device, e: Device, c: Commit, x: Commit)
    returns (s1: State, s2: State, s3: State, s4: State, s5: State)
    requires Inv(s) && d != e && s.Idle(d) && s.Idle(e) && c.author == d && x.author == e
    requires s.Local(d) == Member(s.log, None) && s.Local(e) == Member(s.log, None)
    requires PlainRequest(d, s.log, c) !in s.sent && PlainRequest(e, s.log, x) !in s.sent
    ensures Follows(s, Stage(d, c, false, []), s1) && Follows(s1, Stage(e, x, false, []), s2)
    ensures !s2.Idle(d) && Follows(s2, Send(d), s3)
    ensures Follows(s3, Deliver(PlainRequest(e, s.log, x)), s4) && Follows(s4, Settle(e, Committed, true), s5)
    ensures s5.Local(d) == Member(s.log + [c], None) && s5.Local(e) == Member(s.log + [x], None)
    ensures !ForkFree(s5)
  {
    s1, s2 := BothStage(s, d, e, c, x);
    s3 := SendMerges(s2, d, s.log, c);
    s4, s5 := DeliverAndSettle(s3, e, x);
    assert HoldsSettled(s5, d, s.log + [c]) && HoldsSettled(s5, e, s.log + [x]);
    SiblingsFork(s5, s.log, c, x);
  }

  function JoinRequest(d: Device, base: History, c: Commit): Request {
    Request(d, base, c, true, false, [])
  }

  /** One device opens an external join at the head, another stages a commit there. */
  lemma JoinAndStage(s: State, d: Device, e: Device, c: Commit, x: Commit) returns (s1: State, s2: State)
    requires d != e && s.Idle(d) && s.Idle(e) && c.author == d && x.author == e
    requires d in s.registered && d in s.members && s.sv.groupInfo == Some(GroupInfo(|s.log|, s.log))
    requires s.Local(e) == Member(s.log, None)
    requires JoinRequest(d, s.log, c) !in s.sent && PlainRequest(e, s.log, x) !in s.sent
    ensures Follows(s, StageJoin(d, c, false), s1) && Follows(s1, Stage(e, x, false, []), s2)
    ensures s2.log == s.log && s2.sv == s.sv && s2.sealed == s.sealed && PlainRequest(e, s.log, x) in s2.sent
    ensures d in s2.clients && s2.clients[d] == Client(Tentative(s.log, c), Some(JoinRequest(d, s.log, c)))
    ensures e in s2.clients && s2.clients[e] == Client(Member(s.log, Some(x)), Some(PlainRequest(e, s.log, x)))
  {
    s1 := Next(s, StageJoin(d, c, false));
    s2 := Next(s1, Stage(e, x, false, []));
  }

  /** The other device's commit lands while the join is open. */
  lemma JoinOvertaken(s: State, d: Device, e: Device, c: Commit, x: Commit)
    returns (s1: State, s2: State, s3: State, s4: State)
    requires Inv(s) && d != e && s.Idle(d) && s.Idle(e) && c.author == d && x.author == e
    requires d in s.registered && d in s.members && s.sv.groupInfo == Some(GroupInfo(|s.log|, s.log))
    requires s.Local(e) == Member(s.log, None)
    requires JoinRequest(d, s.log, c) !in s.sent && PlainRequest(e, s.log, x) !in s.sent
    ensures Follows(s, StageJoin(d, c, false), s1) && Follows(s1, Stage(e, x, false, []), s2)
    ensures Follows(s2, Deliver(PlainRequest(e, s.log, x)), s3) && Follows(s3, Settle(e, Committed, true), s4)
    ensures Inv(s4) && d in s4.clients && !s4.Idle(d)
    ensures s4.Local(d) == Tentative(s.log, c) && s4.Local(e) == Member(s.log + [x], None)
  {
    s1, s2 := JoinAndStage(s, d, e, c, x);
    StageKeepsInv(s, StageJoin(d, c, false));
    StageKeepsInv(s1, Stage(e, x, false, []));
    s3, s4 := DeliverAndSettle(s2, e, x);
    DeliverKeepsInv(s2, PlainRequest(e, s.log, x));
    SettleKeepsInv(s3, e, Committed, true);
  }

  lemma SendTentative(s: State, d: Device, e: Device, h: History, c: Commit, x: Commit)
    requires d in s.clients && s.Local(d) == Tentative(h, c) && s.Local(e) == Member(h + [x], None)
    requires d != e && c != x
    ensures Enabled(s, Send(d)) && Sealed(d, h + [c]) in Next(s, Send(d)).sealed && !ForkFree(Next(s, Send(d)))
  {
    var t := Next(s, Send(d));
    assert Sealed(d, h + [c]) in t.sealed && HoldsSettled(t, e, h + [x]);
    SiblingsFork(t, h, c, x);
  }

  /**
   * An external join is written down before it is submitted.  From any state with a device at the
   * head and the GroupInfo published there, quiet steps alone leave another device with a
   * different stored group at the same epoch.  Nothing in use has forked yet; a send inside that
   * window makes it so.
   */
  lemma SendInsideJoinForks(s: State, d: Device, e: Device, c: Commit, x: Commit)
    returns (s1: State, s2: State, s3: State, s4: State, s5: State)
    requires Inv(s) && d != e && s.Idle(d) && s.Idle(e) && c.author == d && x.author == e
    requires d in s.registered && d in s.members && s.sv.groupInfo == Some(GroupInfo(|s.log|, s.log))
    requires s.Local(e) == Member(s.log, None)
    requires JoinRequest(d, s.log, c) !in s.sent && PlainRequest(e, s.log, x) !in s.sent
    ensures QuietlyFollows(s, StageJoin(d, c, false), s1) && QuietlyFollows(s1, Stage(e, x, false, []), s2)
    ensures QuietlyFollows(s2, Deliver(PlainRequest(e, s.log, x)), s3)
            && QuietlyFollows(s3, Settle(e, Committed, true), s4)
    ensures Held(s4.Local(d)) == Some(s.log + [c]) && Held(s4.Local(e)) == Some(s.log + [x])
    ensures ForkFree(s4) && !Agree(s.log + [c], s.log + [x])
    ensures Follows(s4, Send(d), s5) && !s4.Idle(d) && Sealed(d, s.log + [c]) in s5.sealed && !ForkFree(s5)
  {
    s1, s2, s3, s4 := JoinOvertaken(s, d, e, c, x);
    SendTentative(s4, d, e, s.log, c, x);
    s5 := Next(s4, Send(d));
    InvForkFree(s4);
    Siblings(s.log, c, x);
  }

  /** A prune by itself, from the first read to the deletion. */
  lemma WholePrune(s: State, id: nat, devices: seq<Device>) returns (s1: State, s2: State, s3: State, t: State)
    requires RowsMatch(s) && id !in s.prunes && forall d :: d in devices <==> d in s.registered && d in s.members
    ensures Follows(s, Prune(id, ReadHead), s1) && Follows(s1, Prune(id, ReadRoster(devices)), s2)
    ensures Follows(s2, Prune(id, ReadReports), s3) && Follows(s3, Prune(id, DeleteRows), t)
    ensures t.sv == s.sv.(rows := DeleteBelow(s.sv.rows, FloorFor(devices, s.sv.since, |s.log|)))
    ensures t == s.(sv := t.sv, low := t.low, prunes := t.prunes)
  {
    HeadIsLogLength(s);
    s1 := Next(s, Prune(id, ReadHead));
    s2 := Next(s1, Prune(id, ReadRoster(devices)));
    s3 := Next(s2, Prune(id, ReadReports));
    t := Next(s3, Prune(id, DeleteRows));
  }

  /**
   * One epoch won twice: the only device of the roster is put on file eight past the head, the
   * next prune empties the log, and a request that had lost the first epoch wins it again, so
   * that the stored row and the commit accepted first are different.
   */
  lemma OverstatedReportForks(s: State, d: Device, id: nat, first: Request, second: Request)
    returns (s1: State, s2: State, s3: State, s4: State, s5: State, s6: State)
    requires Inv(s) && s.log != [] && s.registered * s.members == {d} && id !in s.prunes
    requires first in s.accepted && second in s.sent && first.base == [] && second.base == []
    requires first.commit != second.commit
    ensures Follows(s, FileReport(d, |s.log| + PRUNE_SLACK_EPOCHS), s1)
    ensures Follows(s1, Prune(id, ReadHead), s2) && Follows(s2, Prune(id, ReadRoster([d])), s3)
    ensures Follows(s3, Prune(id, ReadReports), s4) && Follows(s4, Prune(id, DeleteRows), s5) && s5.Head() == 0
    ensures Follows(s5, Deliver(second), s6) && first in s6.accepted && second in s6.accepted
    ensures 0 in s6.sv.rows && s6.sv.rows[0] == second.commit && s6.log[0] == first.commit
  {
    s1 := Next(s, FileReport(d, |s.log| + PRUNE_SLACK_EPOCHS));
    assert s1.sv.since[d] >= |s.log| + PRUNE_SLACK_EPOCHS;
    assert forall x :: x in [d] <==> x in s1.registered * s1.members;
    FloorBelowHead([d], s1.sv.since, |s.log|, |s.log|);
    s2, s3, s4, s5 := WholePrune(s1, id, [d]);
    assert s5.sv.rows.Keys == {};
    assert first.Result()[0] == first.commit;
    s6 := Next(s5, Deliver(second));
  }

  // ---------------------------------------------------------------- retention

  /** A prune under way that leaves a device at epoch `n` its rows. */
  predicate Spares(p: Pruner, d: Device, n: nat) {
    match p
    case HeadRead(h) => h - PRUNE_MAX_BEHIND_HEAD <= n
    case RosterRead(h, devices) => d in devices && h - PRUNE_MAX_BEHIND_HEAD <= n
    case Ready(floor) => floor <= n
  }

  /** The rows from epoch `n` on are there, and no prune under way will take them. */
  ghost predicate Spared(s: State, d: Device, n: nat) {
    s.low <= n && forall id :: id in s.prunes ==> Spares(s.prunes[id], d, n)
  }

  /** The device is on record at `n` at most. */
  ghost predicate NotPast(s: State, d: Device, n: nat) {
    && (forall r :: r in s.reports && r.device == d ==> r.epoch <= n)
    && (d in s.sv.since ==> s.sv.since[d] <= n)
  }

  /** The device can still replay from its own epoch, and has not reported past it. */
  ghost predicate Covered(s: State, d: Device) {
    s.Local(d).Member? && Spared(s, d, |s.Local(d).history|) && NotPast(s, d, |s.Local(d).history|)
  }

  /**
   * What a step must respect for a device at epoch `n`: a prune that reads the head finds it
   * within the cap, one that reads the roster finds the device in it, and nobody reports the
   * device past `n`.
   */
  ghost predicate Respects(s: State, step: Step, d: Device, n: nat) {
    && (step.Prune? && step.phase.ReadHead? ==> |s.log| - n <= PRUNE_MAX_BEHIND_HEAD)
    && (step.Prune? && step.phase.ReadRoster? ==> d in s.registered && d in s.members)
    && (step.FileReport? && step.device == d ==> step.epoch <= n)
    && (step.SendReport? && step.d == d && s.Local(d).Member? ==> |s.Local(d).history| <= n)
  }

  ghost predicate Forward(s: State, t: State, d: Device) {
    s.Local(d).Member? && t.Local(d).Member? && |s.Local(d).history| <= |t.Local(d).history|
  }

  /** The floor passes no device of the roster that is within the cap and has not reported past its epoch. */
  lemma FloorSpares(devices: seq<Device>, since: map<Device, int>, head: int, d: Device, n: nat)
    requires d in devices && head - PRUNE_MAX_BEHIND_HEAD <= n && (d in since ==> since[d] <= n)
    ensures FloorFor(devices, since, head) <= n
  {
    MinReportedIsLeast(devices, since);
    var i :| 0 <= i < |devices| && devices[i] == d;
  }

  lemma StepKeepsSpared(s: State, step: Step, d: Device, n: nat)
    requires Inv(s) && Enabled(s, step) && Spared(s, d, n) && NotPast(s, d, n) && Respects(s, step, d, n)
    ensures Spared(Next(s, step), d, n)
  {
    var t := Next(s, step);
    if step.Prune? && step.phase.ReadHead? {
      HeadIsLogLength(s);
    } else if step.Prune? && step.phase.ReadReports? {
      var p := s.prunes[step.id];
      assert Spares(p, d, n);
      FloorSpares(p.devices, s.sv.since, p.head, d, n);
    } else if step.Prune? && step.phase.DeleteRows? {
      assert Spares(s.prunes[step.id], d, n);
    }
    forall id | id in t.prunes
      ensures Spares(t.prunes[id], d, n)
    {
      assert id in s.prunes ==> Spares(s.prunes[id], d, n);
    }
  }

  lemma StepKeepsNotPast(s: State, step: Step, d: Device, n: nat)
    requires Enabled(s, step) && NotPast(s, d, n) && Respects(s, step, d, n)
    ensures NotPast(Next(s, step), d, n)
  {
  }

  lemma SparedLater(s: State, d: Device, n: nat, m: nat)
    requires Spared(s, d, n) && NotPast(s, d, n) && n <= m
    ensures Spared(s, d, m) && NotPast(s, d, m)
  {
    forall id | id in s.prunes
      ensures Spares(s.prunes[id], d, m)
    {
      assert Spares(s.prunes[id], d, n);
    }
  }

  /** A step keeps a device covered that keeps its group, does not go back, and is respected by it. */
  lemma StepKeepsCovered(s: State, step: Step, d: Device)
    requires Inv(s) && Enabled(s, step) && Covered(s, d) && Forward(s, Next(s, step), d)
    requires Respects(s, step, d, |s.Local(d).history|)
    ensures Covered(Next(s, step), d)
  {
    var n := |s.Local(d).history|;
    StepKeepsSpared(s, step, d, n);
    StepKeepsNotPast(s, step, d, n);
    SparedLater(Next(s, step), d, n, |Next(s, step).Local(d).history|);
  }

  /** Over this step the device keeps its group, does not go back, and is respected. */
  ghost predicate KeepsUp(s: State, step: Step, t: State, d: Device) {
    Forward(s, t, d) && Respects(s, step, d, |s.Local(d).history|)
  }

  lemma CoveredAfter(s: State, step: Step, t: State, d: Device)
    requires Inv(s) && Follows(s, step, t) && Covered(s, d) && KeepsUp(s, step, t, d)
    ensures Covered(t, d)
  {
    StepKeepsCovered(s, step, d);
  }

  /** A covered device never meets a gap: it applies the row at its own epoch, or is at the head. */
  lemma CoveredNeverGaps(s: State, d: Device)
    requires Inv(s) && Covered(s, d)
    ensures var h := s.Local(d).history;
            Classify(|h|, NextRow(s.sv.rows.Keys, |h|)) == if h == s.log then Wait else Apply
  {
    var h := s.Local(d).history;
    assert ClientMatches(s.log, s.sent, d, s.clients[d]);
    NextRowAt(s, |h|);
  }

  ghost predicate SoundStep(s: State, step: Step, t: State, d: Device) {
    Inv(s) && Follows(s, step, t) && KeepsUp(s, step, t, d)
  }

  lemma {:induction false} RunKeepsCovered(states: seq<State>, steps: seq<Step>, d: Device, from: nat, n: nat)
    requires |states| == |steps| + 1 && from <= n < |states| && Covered(states[from], d)
    requires forall i :: from <= i < n ==> SoundStep(states[i], steps[i], states[i + 1], d)
    ensures Covered(states[n], d)
  {
    if from < n {
      RunKeepsCovered(states, steps, d, from, n - 1);
      assert SoundStep(states[n - 1], steps[n - 1], states[n - 1 + 1], d);
      CoveredAfter(states[n - 1], steps[n - 1], states[n], d);
    }
  }

  /**
   * Retention safety over whole runs: as long as a device keeps its group, does not go back, is
   * within the cap whenever a prune reads the head and a registered member whenever one reads the
   * roster, the row it needs is always there, whether or not the other devices report.
   */
  lemma RetentionSafety(states: seq<State>, steps: seq<Step>, founder: Device, d: Device, from: nat, n: nat)
    requires Run(states, steps) && Initial(states[0], founder) && Checked(states, steps)
    requires from <= n < |states| && Covered(states[from], d)
    requires forall i :: from <= i < n ==> KeepsUp(states[i], steps[i], states[i + 1], d)
    ensures Covered(states[n], d)
    ensures var h := states[n].Local(d).history;
            Classify(|h|, NextRow(states[n].sv.rows.Keys, |h|)) == if h == states[n].log then Wait else Apply
  {
    forall i | from <= i < n
      ensures SoundStep(states[i], steps[i], states[i + 1], d)
    {
      RunInv(states, steps, founder, i);
      assert Follows(states[i], steps[i], states[i + 1]) && KeepsUp(states[i], steps[i], states[i + 1], d);
    }
    RunKeepsCovered(states, steps, d, from, n);
    RunInv(states, steps, founder, n);
    CoveredNeverGaps(states[n], d);
  }

  /** Every report on file was sent by its device, and none was sent past an accepted join that is still open. */
  ghost predicate ReportsHonest(s: State) {
    && s.accepted <= s.sent
    && (forall d :: d in s.sv.since ==> OnFile(s, d))
    && (forall d, r :: d in s.clients && r in s.reports ==> NotPastJoin(s, d, r))
  }

  ghost predicate OnFile(s: State, d: Device)
    requires d in s.sv.since
  {
    0 <= s.sv.since[d] && Report(d, s.sv.since[d]) in s.reports
  }

  ghost predicate NotPastJoin(s: State, d: Device, r: Report)
    requires d in s.clients
  {
    JoinAccepted(s, d) && r.device == d ==> r.epoch <= |s.clients[d].local.base|
  }

  ghost predicate JoinAccepted(s: State, d: Device)
    requires d in s.clients
  {
    s.clients[d].local.Tentative? && s.clients[d].op.Some? && s.clients[d].op.value in s.accepted
  }

  lemma DeliverKeepsNotPastJoin(s: State, req: Request, d: Device, r: Report)
    requires Inv(s) && req in s.sent && d in s.clients && r in s.reports && NotPastJoin(s, d, r)
    ensures NotPastJoin(Next(s, Deliver(req)), d, r)
  {
    HeadIsLogLength(s);
    assert ClientMatches(s.log, s.sent, d, s.clients[d]);
  }

  /** Whoever has an open join after a step had it before, or has just staged it. */
  lemma OpenJoinIsOld(s: State, step: Step, d: Device)
    requires Enabled(s, step) && d in Next(s, step).clients
    requires Next(s, step).clients[d].local.Tentative? && Next(s, step).clients[d].op.Some?
    ensures (step.StageJoin? && step.d == d) || (d in s.clients && s.clients[d] == Next(s, step).clients[d])
  {
  }

  lemma StepKeepsNotPastJoin(s: State, step: Step, d: Device, r: Report)
    requires Inv(s) && ReportsHonest(s) && Enabled(s, step) && !step.Deliver?
    requires d in Next(s, step).clients && r in Next(s, step).reports
    ensures NotPastJoin(Next(s, step), d, r)
  {
    var t := Next(s, step);
    if t.clients[d].local.Tentative? && t.clients[d].op.Some? {
      OpenJoinIsOld(s, step, d);
      assert r in s.reports && d in s.clients ==> NotPastJoin(s, d, r);
    }
  }

  /** A report filed by somebody other than the device it names. */
  ghost predicate Forged(s: State, step: Step) {
    step.FileReport? && !(0 <= step.epoch && Report(step.device, step.epoch) in s.reports)
  }

  lemma StepKeepsHonest(s: State, step: Step)
    requires Inv(s) && ReportsHonest(s) && Enabled(s, step) && !Forged(s, step)
    ensures ReportsHonest(Next(s, step))
  {
    var t := Next(s, step);
    assert t.accepted <= t.sent;
    forall d, r | d in t.clients && r in t.reports
      ensures NotPastJoin(t, d, r)
    {
      if step.Deliver? {
        assert NotPastJoin(s, d, r);
        DeliverKeepsNotPastJoin(s, step.req, d, r);
      } else {
        StepKeepsNotPastJoin(s, step, d, r);
      }
    }
    forall d | d in t.sv.since
      ensures OnFile(t, d)
    {
      assert d in s.sv.since ==> OnFile(s, d);
    }
  }

  /** In every run in which nobody reports for somebody else, the reports are honest throughout. */
  lemma {:induction false} RunKeepsHonest(states: seq<State>, steps: seq<Step>, founder: Device, n: nat)
    requires Run(states, steps) && Initial(states[0], founder) && Checked(states, steps) && n < |states|
    requires forall i :: 0 <= i < n ==> !Forged(states[i], steps[i])
    ensures ReportsHonest(states[n])
  {
    if n > 0 {
      RunKeepsHonest(states, steps, founder, n - 1);
      RunInv(states, steps, founder, n - 1);
      assert Follows(states[n - 1], steps[n - 1], states[n - 1 + 1]) && !Forged(states[n - 1], steps[n - 1]);
      StepKeepsHonest(states[n - 1], steps[n - 1]);
    }
  }

  lemma SettledJoinCovered(s: State, step: Step)
    requires Inv(s) && ReportsHonest(s) && step.Settle? && Enabled(s, step) && JoinAccepted(s, step.d)
    requires Next(s, step).Local(step.d).Member?
    ensures Covered(Next(s, step), step.d) <==> Spared(s, step.d, |s.clients[step.d].local.base| + 1)
  {
    var t, n := Next(s, step), |s.clients[step.d].local.base| + 1;
    forall r | r in t.reports && r.device == step.d
      ensures r.epoch <= n
    {
      assert NotPastJoin(s, step.d, r);
    }
    if step.d in s.sv.since {
      assert OnFile(s, step.d);
    }
    assert NotPast(t, step.d, n);
    assert Spared(t, step.d, n) <==> Spared(s, step.d, n);
  }

  /**
   * In every run in which nobody reports for somebody else, a device that rejoins by an external
   * commit is covered once settled, exactly unless a prune, done or under way, has passed it.
   */
  lemma JoinIsCovered(states: seq<State>, steps: seq<Step>, founder: Device, n: nat)
    requires Run(states, steps) && Initial(states[0], founder) && Checked(states, steps) && n < |steps|
    requires forall i :: 0 <= i < n ==> !Forged(states[i], steps[i])
    requires steps[n].Settle? && steps[n].d in states[n].clients && JoinAccepted(states[n], steps[n].d)
    requires states[n + 1].Local(steps[n].d).Member?
    ensures Covered(states[n + 1], steps[n].d) <==>
            Spared(states[n], steps[n].d, |states[n].clients[steps[n].d].local.base| + 1)
  {
    RunInv(states, steps, founder, n);
    RunKeepsHonest(states, steps, founder, n);
    assert Follows(states[n], steps[n], states[n + 1]);
    SettledJoinCovered(states[n], steps[n]);
  }

  /** A device with a Welcome on file, no further on record, and with the rows from there on kept. */
  ghost predicate Waiting(s: State, d: Device) {
    && d in s.sv.welcomes && d in s.clients
    && Spared(s, d, |s.sv.welcomes[d].blob|) && NotPast(s, d, |s.sv.welcomes[d].blob|)
  }

  lemma {:induction false} InvitedGets(sent: seq<WelcomeOut<History>>, d: Device, h: History)
    requires (exists i :: 0 <= i < |sent| && sent[i].recipient == d)
    requires forall i :: 0 <= i < |sent| ==> sent[i].blob == h
    ensures LastFor(sent, d) == Some(h)
  {
    var i :| 0 <= i < |sent| && sent[i].recipient == d;
    if sent[|sent| - 1].recipient != d {
      assert sent[..|sent| - 1][i] == sent[i];
      InvitedGets(sent[..|sent| - 1], d, h);
    }
  }

  /**
   * An invited device starts out like that when its Welcome is filed, as long as reports are up to
   * the head and no prune under way read the roster before the device was in it.
   */
  lemma WelcomeFiled(s: State, req: Request, d: Device)
    requires Inv(s) && WithinHead(s) && req in s.sent && |req.base| == |s.log| && d in req.invited && d in s.clients
    requires forall id :: id in s.prunes && s.prunes[id].RosterRead? ==> d in s.prunes[id].devices
    ensures Waiting(Next(s, Deliver(req)), d) && Next(s, Deliver(req)).sv.welcomes[d].blob == req.Result()
  {
    HeadIsLogLength(s);
    var t, n := Next(s, Deliver(req)), |s.log| + 1;
    var sent := req.Body().welcomes;
    var i :| 0 <= i < |req.invited| && req.invited[i] == d;
    assert sent[i].recipient == d;
    InvitedGets(sent, d, req.Result());
    DeliveredIsLatest(s.sv.welcomes, sent, d);
    forall id | id in t.prunes
      ensures Spares(t.prunes[id], d, n)
    {
      assert PruneWithin(s.prunes[id], |s.log|);
    }
  }

  lemma AcceptedWelcomeIsNewer(s: State, req: Request, d: Device)
    requires Inv(s) && |req.base| == |s.log| && d in s.sv.welcomes
    ensures var after := Delivered(s.sv.welcomes, req.Body().welcomes);
            d in after && |s.sv.welcomes[d].blob| <= |after[d].blob|
  {
    DeliveredIsLatest(s.sv.welcomes, req.Body().welcomes, d);
    WelcomesFrom(s.sv.welcomes, req.Body().welcomes, d);
  }

  /** A Welcome is only ever replaced by a newer one. */
  lemma WelcomeNeverOlder(s: State, step: Step, d: Device)
    requires Inv(s) && Enabled(s, step) && d in s.sv.welcomes
    ensures var t := Next(s, step);
            d in t.sv.welcomes && |s.sv.welcomes[d].blob| <= |t.sv.welcomes[d].blob|
  {
    if step.Deliver? && |step.req.base| == s.Head() {
      HeadIsLogLength(s);
      AcceptedWelcomeIsNewer(s, step.req, d);
    }
  }

  lemma StepKeepsWaiting(s: State, step: Step, d: Device)
    requires Inv(s) && Enabled(s, step) && Waiting(s, d) && Respects(s, step, d, |s.sv.welcomes[d].blob|)
    ensures Waiting(Next(s, step), d)
  {
    var n := |s.sv.welcomes[d].blob|;
    WelcomeNeverOlder(s, step, d);
    StepKeepsSpared(s, step, d, n);
    StepKeepsNotPast(s, step, d, n);
    SparedLater(Next(s, step), d, n, |Next(s, step).sv.welcomes[d].blob|);
  }

  /** Over this step the Welcome on file is respected. */
  ghost predicate KeepsWelcome(s: State, step: Step, d: Device) {
    d in s.sv.welcomes ==> Respects(s, step, d, |s.sv.welcomes[d].blob|)
  }

  ghost predicate Awaits(s: State, step: Step, t: State, d: Device) {
    Inv(s) && Follows(s, step, t) && KeepsWelcome(s, step, d)
  }

  lemma WaitingAfter(s: State, step: Step, t: State, d: Device)
    requires Waiting(s, d) && Awaits(s, step, t, d)
    ensures Waiting(t, d)
  {
    StepKeepsWaiting(s, step, d);
  }

  lemma {:induction false} RunKeepsWaiting(states: seq<State>, steps: seq<Step>, d: Device, from: nat, n: nat)
    requires |states| == |steps| + 1 && from <= n < |states| && Waiting(states[from], d)
    requires forall i :: from <= i < n ==> Awaits(states[i], steps[i], states[i + 1], d)
    ensures Waiting(states[n], d)
  {
    if from < n {
      RunKeepsWaiting(states, steps, d, from, n - 1);
      assert Awaits(states[n - 1], steps[n - 1], states[n - 1 + 1], d);
      WaitingAfter(states[n - 1], steps[n - 1], states[n], d);
    }
  }

  /**
   * A device with a Welcome on file that is not on record past it is covered whenever it applies
   * the Welcome, as long as prunes in between found the Welcome within the cap and the device in
   * the roster, and nobody reported it further.
   */
  lemma WelcomeIsCovered(states: seq<State>, steps: seq<Step>, founder: Device, d: Device, from: nat, n: nat)
    requires Run(states, steps) && Initial(states[0], founder) && Checked(states, steps) && from <= n < |steps|
    requires Waiting(states[from], d) && steps[n] == ApplyWelcome(d)
    requires forall i :: from <= i < n ==> KeepsWelcome(states[i], steps[i], d)
    ensures Covered(states[n + 1], d)
  {
    forall i | from <= i < n
      ensures Awaits(states[i], steps[i], states[i + 1], d)
    {
      RunInv(states, steps, founder, i);
      assert Follows(states[i], steps[i], states[i + 1]) && KeepsWelcome(states[i], steps[i], d);
    }
    RunKeepsWaiting(states, steps, d, from, n);
    assert Follows(states[n], steps[n], states[n + 1]);
  }

  // ---------------------------------------------------------------- catching up

  /** The row at `e` lets replay past: another device's commit, or the one the device still has pending there. */
  ghost predicate Clears(s: State, d: Device, e: nat)
    requires e < |s.log| && s.Local(d).Member?
  {
    s.log[e].author != d || (e == |s.Local(d).history| && s.Local(d).pending == Some(s.log[e]))
  }

  ghost predicate RestClears(s: State, d: Device)
    requires s.Local(d).Member?
  {
    forall e :: |s.Local(d).history| <= e < |s.log| ==> Clears(s, d, e)
  }

  /** One turn of replay at such a row. */
  lemma ReplayOne(s: State, d: Device)
    requires Inv(s) && s.Idle(d) && s.Local(d).Member? && s.low <= |s.Local(d).history| < |s.log|
    requires Clears(s, d, |s.Local(d).history|)
    ensures Enabled(s, Replay(d, Merged)) && !Diverges(s, Replay(d, Merged))
    ensures Next(s, Replay(d, Merged)).Local(d) == Member(s.log[..|s.Local(d).history| + 1], None)
  {
    var h := s.Local(d).history;
    assert ClientMatches(s.log, s.sent, d, s.clients[d]);
    NextRowAt(s, |h|);
    assert s.log[..|h| + 1] == s.log[..|h|] + [s.log[|h|]];
  }

  ghost predicate OnlyReplay(steps: seq<Step>, d: Device) {
    forall i :: 0 <= i < |steps| ==> steps[i].Replay? && steps[i].d == d
  }

  ghost predicate AtHead(s: State, d: Device) {
    s.Local(d).Member? && s.Local(d).history == s.log
  }

  lemma CatchUpOne(s: State, d: Device) returns (t: State)
    requires Inv(s) && s.Idle(d) && s.Local(d).Member? && s.low <= |s.Local(d).history| && RestClears(s, d)
    requires s.Local(d).history <= s.log && s.Local(d).history != s.log
    ensures Follows(s, Replay(d, Merged), t) && Inv(t) && t.Idle(d) && t.log == s.log
    ensures t.Local(d) == Member(s.log[..|s.Local(d).history| + 1], None)
    ensures t.low == s.low && RestClears(t, d)
  {
    assert Clears(s, d, |s.Local(d).history|);
    ReplayOne(s, d);
    t := Next(s, Replay(d, Merged));
    ReplayKeepsInv(s, d, Merged);
    forall e | |s.Local(d).history| < e < |s.log|
      ensures Clears(t, d, e)
    {
      assert Clears(s, d, e);
    }
  }

  lemma PrependRun(s: State, step: Step, states: seq<State>, steps: seq<Step>)
    requires Run(states, steps) && Follows(s, step, states[0])
    ensures Run([s] + states, [step] + steps)
  {
    forall i | 0 <= i < |steps| + 1
      ensures Follows(([s] + states)[i], ([step] + steps)[i], ([s] + states)[i + 1])
    {
      assert i > 0 ==> Follows(states[i - 1], steps[i - 1], states[i - 1 + 1]);
    }
  }

  /** A device whose missing rows are retained and clear reaches the head, one applied row per missing epoch. */
  lemma {:induction false} CatchUp(s: State, d: Device) returns (states: seq<State>, steps: seq<Step>)
    requires Inv(s) && s.Idle(d) && s.Local(d).Member? && s.low <= |s.Local(d).history| && RestClears(s, d)
    ensures Run(states, steps) && states[0] == s && OnlyReplay(steps, d)
    ensures |steps| == |s.log| - |s.Local(d).history|
    ensures AtHead(states[|steps|], d)
    decreases |s.log| - |s.Local(d).history|
  {
    assert ClientMatches(s.log, s.sent, d, s.clients[d]);
    if s.Local(d).history == s.log {
      states, steps := [s], [];
    } else {
      var t := CatchUpOne(s, d);
      var rest, more := CatchUp(t, d);
      states, steps := [s] + rest, [Replay(d, Merged)] + more;
      PrependRun(s, Replay(d, Merged), rest, more);
    }
  }

  /** A row replay cannot pass without the commit pending there: pruned away, or the device's own. */
  ghost predicate Blocks(s: State, d: Device, e: nat) {
    e < |s.log| && (e < s.low || s.log[e].author == d)
  }

  /** No group, one off the log, or one that has not got past row `e` and has nothing to pass it with. */
  ghost predicate HeldBack(s: State, d: Device, e: nat)
    requires e < |s.log|
  {
    match s.Local(d)
    case Member(h, p) => !(h <= s.log) || |h| < e || (|h| == e && (e < s.low || p != Some(s.log[e])))
    case _ => s.Local(d).NoGroup?
  }

  /** One turn of replay does not get the device past such a row, whatever the processing does. */
  lemma ReplayHeldBack(s: State, d: Device, how: Processed, e: nat)
    requires RowsMatch(s) && Enabled(s, Replay(d, how)) && Blocks(s, d, e) && HeldBack(s, d, e)
    ensures var t := Next(s, Replay(d, how));
            t.log == s.log && RowsMatch(t) && Blocks(t, d, e) && HeldBack(t, d, e)
  {
    var h := s.Local(d).history;
    if h <= s.log {
      NextRowAt(s, |h|);
    }
  }

  lemma {:induction false} ReplayNeverPasses(states: seq<State>, steps: seq<Step>, d: Device, e: nat, n: nat)
    requires Run(states, steps) && OnlyReplay(steps, d) && n < |states| && RowsMatch(states[0])
    requires Blocks(states[0], d, e) && HeldBack(states[0], d, e)
    ensures states[n].log == states[0].log && RowsMatch(states[n]) && Blocks(states[n], d, e)
            && HeldBack(states[n], d, e)
  {
    if n > 0 {
      ReplayNeverPasses(states, steps, d, e, n - 1);
      assert Follows(states[n - 1], steps[n - 1], states[n - 1 + 1]);
      ReplayHeldBack(states[n - 1], d, steps[n - 1].how, e);
    }
  }

  /** A landed commit of the device's own that is no longer pending is a row replay cannot get past. */
  lemma OwnRowStalls(s: State, d: Device, how: Processed)
    requires Inv(s) && s.Idle(d) && s.Local(d).Member? && s.Local(d).pending.None?
    requires s.low <= |s.Local(d).history| < |s.log| && s.log[|s.Local(d).history|].author == d
    ensures Next(s, Replay(d, how)).Local(d) in {NoGroup, s.Local(d)}
  {
    assert ClientMatches(s.log, s.sent, d, s.clients[d]);
    NextRowAt(s, |s.Local(d).history|);
  }

  ghost predicate ReplaysToHead(s: State, d: Device, states: seq<State>, steps: seq<Step>) {
    Run(states, steps) && states[0] == s && OnlyReplay(steps, d) && AtHead(states[|steps|], d)
  }

  lemma BlockingRow(s: State, d: Device) returns (e: nat)
    requires RowsMatch(s) && s.Local(d).Member? && s.Local(d).history <= s.log
    requires !(s.low <= |s.Local(d).history| && RestClears(s, d))
    ensures Blocks(s, d, e) && HeldBack(s, d, e)
  {
    if s.low > |s.Local(d).history| {
      e := |s.Local(d).history|;
    } else {
      e :| |s.Local(d).history| <= e < |s.log| && !Clears(s, d, e);
    }
  }

  lemma NeverAtHead(s: State, d: Device, e: nat, states: seq<State>, steps: seq<Step>)
    requires RowsMatch(s) && Blocks(s, d, e) && HeldBack(s, d, e)
    ensures !ReplaysToHead(s, d, states, steps)
  {
    if Run(states, steps) && states[0] == s && OnlyReplay(steps, d) {
      ReplayNeverPasses(states, steps, d, e, |steps|);
    }
  }

  /** Some replay-only run brings the device to the head exactly when every row it misses is retained and clear. */
  lemma CatchUpIsExact(s: State, d: Device)
    requires Inv(s) && s.Idle(d) && s.Local(d).Member?
    ensures (exists states, steps :: ReplaysToHead(s, d, states, steps)) <==>
            s.low <= |s.Local(d).history| && RestClears(s, d)
  {
    assert ClientMatches(s.log, s.sent, d, s.clients[d]);
    if s.low <= |s.Local(d).history| && RestClears(s, d) {
      var states, steps := CatchUp(s, d);
      assert ReplaysToHead(s, d, states, steps);
    } else {
      var e: nat := BlockingRow(s, d);
      forall states, steps
        ensures !ReplaysToHead(s, d, states, steps)
      {
        NeverAtHead(s, d, e, states, steps);
      }
    }
  }

  /**
   * The loser of a race converges on the winner: once its submission is settled, replay alone
   * brings it to the head, if the rows it misses are retained and other devices'.
   */
  lemma LoserCatchesUp(s: State, d: Device, outcome: SubmitOutcome, readable: bool)
    returns (states: seq<State>, steps: seq<Step>)
    requires Inv(s) && Enabled(s, Settle(d, outcome, readable)) && StillStaged(s.clients[d])
    requires !s.clients[d].op.value.joining && !s.Landed(s.clients[d].op.value.Result())
    requires s.low <= |s.clients[d].op.value.base|
    requires forall e :: |s.clients[d].op.value.base| <= e < |s.log| ==> s.log[e].author != d
    ensures ReplaysToHead(Next(s, Settle(d, outcome, readable)), d, states, steps)
    ensures |steps| == |s.log| - |s.clients[d].op.value.base|
  {
    var t := Next(s, Settle(d, outcome, readable));
    SettleLeaves(s, d, outcome, readable);
    SettleKeepsInv(s, d, outcome, readable);
    assert forall e :: |t.Local(d).history| <= e < |t.log| ==> Clears(t, d, e);
    states, steps := CatchUp(t, d);
  }
}
