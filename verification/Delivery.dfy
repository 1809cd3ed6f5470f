/**
 * Message delivery to one device in one conversation: catch-up passes that fetch, replay the
 * group's commits and read what was sealed at each epoch on the way, and raise the cursor, while
 * messages arrive and the group moves.  What becomes of every message, over every run.
 */
module Delivery {
  import opened Common
  import opened Watermark

  // ---------------------------------------------------------------- the state machine

  predicate Above(cursor: Option<int>, sentAt: int) {
    cursor.None? || sentAt > cursor.value
  }

  /** A catch-up pass: it has its list, then it has replayed and knows up to which epoch the hook fired. */
  datatype Pass = Fetched(list: seq<Envelope>) | Replayed(list: seq<Envelope>, fired: Option<nat>)

  /**
   * The stored envelopes, the cursor, the passes under way, the group's epoch, and the envelopes
   * dealt with so far: read, or fetched if they need no keys.
   */
  datatype State = State(envs: set<Envelope>, cursor: Option<int>, passes: map<nat, Pass>, at: nat, done: set<Envelope>)

  /**
   * A replay fires the hook up to `fired`, for which the group is really there up to `reached`,
   * and leaves the group at `to`.  Usually the three are one.  At a row of the device's own
   * without its pending commit the hook fires past the group; a recovery rejoins past the hook;
   * without a group nothing fires.  A pass may fail at any point, and the group may move outside
   * a pass: by a commit of its own, a Welcome or a rejoin.
   */
  datatype Step =
    | Arrive(e: Envelope)
    | Fetch(id: nat, list: seq<Envelope>)
    | Replay(id: nat, fired: Option<nat>, reached: nat, to: nat)
    | Finish(id: nat)
    | Abandon(id: nat)
    | Move(to: nat)

  ghost predicate Enabled(s: State, step: Step) {
    match step
    case Arrive(e) => e !in s.envs
    case Fetch(id, list) =>
      id !in s.passes && Sorted(list) && forall e :: e in list <==> e in s.envs && Above(s.cursor, e.sentAt)
    case Replay(id, fired, reached, to) =>
      && id in s.passes && s.passes[id].Fetched?
      && s.at <= reached <= to && (fired.Some? ==> reached <= fired.value)
    case Finish(id) => id in s.passes && s.passes[id].Replayed?
    case Abandon(id) => id in s.passes
    case Move(to) => s.at <= to
  }

  /** Keys of an epoch are there only while the group is at it. */
  predicate Reads(at: nat, fired: Option<nat>, reached: nat, e: Envelope) {
    Gated(e) ==> fired.Some? && at <= e.epoch.value <= reached
  }

  /** The stored cursor is only ever raised. */
  function Raise(cursor: Option<int>, w: Option<int>): Option<int> {
    if NotAfter(w, cursor) then cursor else w
  }

  function Next(s: State, step: Step): State
    requires Enabled(s, step)
  {
    match step
    case Arrive(e) => s.(envs := s.envs + {e})
    case Fetch(id, list) => s.(passes := s.passes[id := Fetched(list)])
    case Replay(id, fired, reached, to) =>
      var list := s.passes[id].list;
      s.(passes := s.passes[id := Replayed(list, fired)],
         done := s.done + (set e | e in list && Reads(s.at, fired, reached, e)),
         at := to)
    case Finish(id) =>
      s.(cursor := Raise(s.cursor, NextWatermark(s.passes[id].list, s.passes[id].fired)), passes := s.passes - {id})
    case Abandon(id) => s.(passes := s.passes - {id})
    case Move(to) => s.(at := to)
  }

  ghost predicate Follows(s: State, step: Step, t: State) {
    Enabled(s, step) && t == Next(s, step)
  }

  ghost predicate Run(states: seq<State>, steps: seq<Step>) {
    && |states| == |steps| + 1
    && forall i :: 0 <= i < |steps| ==> Follows(states[i], steps[i], states[i + 1])
  }

  /** A device starts with the epoch it joined at and the cursor it was registered with. */
  ghost predicate Initial(s: State) {
    s == State({}, s.cursor, map[], s.at, {})
  }

  ghost predicate PassMatches(s: State, id: nat)
    requires id in s.passes
  {
    Sorted(s.passes[id].list) && forall e :: e in s.passes[id].list ==> e in s.envs
  }

  ghost predicate Inv(s: State) {
    && (forall id :: id in s.passes ==> PassMatches(s, id))
    && (forall e :: e in s.done ==> e in s.envs)
  }

  lemma StepKeepsInv(s: State, step: Step)
    requires Inv(s) && Enabled(s, step)
    ensures Inv(Next(s, step))
  {
    var t := Next(s, step);
    forall id | id in t.passes
      ensures PassMatches(t, id)
    {
      assert id in s.passes ==> PassMatches(s, id);
    }
    if step.Replay? {
      assert PassMatches(s, step.id);
    }
  }

  lemma {:induction false} RunInv(states: seq<State>, steps: seq<Step>, n: nat)
    requires Run(states, steps) && Initial(states[0]) && n < |states|
    ensures Inv(states[n])
  {
    if n > 0 {
      RunInv(states, steps, n - 1);
      assert Follows(states[n - 1], steps[n - 1], states[n - 1 + 1]);
      StepKeepsInv(states[n - 1], steps[n - 1]);
    }
  }

  lemma StepRaises(s: State, step: Step)
    requires Enabled(s, step)
    ensures NotAfter(s.cursor, Next(s, step).cursor) && s.at <= Next(s, step).at
  {
  }

  /** The cursor never moves back. */
  lemma {:induction false} CursorMonotone(states: seq<State>, steps: seq<Step>, i: nat, j: nat)
    requires Run(states, steps) && i <= j < |states|
    ensures NotAfter(states[i].cursor, states[j].cursor) && states[i].at <= states[j].at
  {
    if i < j {
      CursorMonotone(states, steps, i, j - 1);
      assert Follows(states[j - 1], steps[j - 1], states[j - 1 + 1]);
      StepRaises(states[j - 1], steps[j - 1]);
    }
  }

  /** An envelope at or below the cursor is never fetched again. */
  lemma BehindNeverFetched(states: seq<State>, steps: seq<Step>, i: nat, j: nat, e: Envelope)
    requires Run(states, steps) && i <= j < |steps| && steps[j].Fetch?
    requires !Above(states[i].cursor, e.sentAt)
    ensures e !in steps[j].list
  {
    CursorMonotone(states, steps, i, j);
    assert Follows(states[j], steps[j], states[j + 1]);
  }

  /** A pass that finishes or fails is over; only finishing moves the cursor, to its own if that is later. */
  lemma PassEnds(s: State, id: nat)
    requires id in s.passes
    ensures Next(s, Abandon(id)) == s.(passes := s.passes - {id})
    ensures s.passes[id].Replayed? ==>
              var t, w := Next(s, Finish(id)), NextWatermark(s.passes[id].list, s.passes[id].fired);
              && t == s.(passes := s.passes - {id}, cursor := t.cursor) && t.cursor in {s.cursor, w}
              && NotAfter(s.cursor, t.cursor) && NotAfter(w, t.cursor)
  {
  }

  // ---------------------------------------------------------------- missed for good

  /** In the hands of a pass that has yet to replay. */
  ghost predicate Pending(s: State, e: Envelope) {
    exists id :: Holds(s, id, e)
  }

  ghost predicate Holds(s: State, id: nat, e: Envelope) {
    id in s.passes && s.passes[id].Fetched? && e in s.passes[id].list
  }

  /** Behind the cursor and with no pass left to read it. */
  ghost predicate Lost(s: State, e: Envelope) {
    !Above(s.cursor, e.sentAt) && !Pending(s, e)
  }

  /** Sealed at an epoch whose keys are gone. */
  predicate Unreadable(s: State, e: Envelope) {
    Gated(e) && e.epoch.value < s.at
  }

  /** Stored, not dealt with, and either of the two. */
  ghost predicate Missed(s: State, e: Envelope) {
    e in s.envs && e !in s.done && (Lost(s, e) || Unreadable(s, e))
  }

  lemma StepKeepsMissed(s: State, step: Step, e: Envelope)
    requires Missed(s, e) && Enabled(s, step)
    ensures Missed(Next(s, step), e)
  {
    var t := Next(s, step);
    StepRaises(s, step);
    if Lost(s, e) {
      forall id
        ensures !Holds(t, id, e)
      {
        assert !Holds(s, id, e);
      }
      if step.Replay? {
        assert !Holds(s, step.id, e);
      }
    }
  }

  /** What is missed stays missed: no later pass ever reads it. */
  lemma {:induction false} MissedForGood(states: seq<State>, steps: seq<Step>, i: nat, j: nat, e: Envelope)
    requires Run(states, steps) && i <= j < |states| && Missed(states[i], e)
    ensures Missed(states[j], e) && e !in states[j].done
  {
    if i < j {
      MissedForGood(states, steps, i, j - 1, e);
      assert Follows(states[j - 1], steps[j - 1], states[j - 1 + 1]);
      StepKeepsMissed(states[j - 1], steps[j - 1], e);
    }
  }

  lemma {:induction false} FreshId(ids: set<nat>) returns (n: nat)
    ensures forall i :: i in ids ==> i < n
  {
    n := 0;
    if ids != {} {
      var i :| i in ids;
      var m := FreshId(ids - {i});
      n := if m <= i then i + 1 else m;
      assert forall k :: k in ids ==> k == i || k in ids - {i};
    }
  }

  lemma {:induction false} Insert(list: seq<Envelope>, e: Envelope) returns (all: seq<Envelope>)
    requires Sorted(list)
    ensures Sorted(all) && forall x :: x in all <==> x == e || x in list
  {
    if list == [] || e.sentAt <= list[0].sentAt {
      all := [e] + list;
    } else {
      var rest := Insert(list[1..], e);
      all := [list[0]] + rest;
      assert forall x :: x in rest ==> list[0].sentAt <= x.sentAt;
      assert list == [list[0]] + list[1..];
    }
  }

  /** Any finite set of envelopes can be listed by send time. */
  lemma {:induction false} Listed(es: set<Envelope>) returns (list: seq<Envelope>)
    ensures Sorted(list) && forall e :: e in list <==> e in es
  {
    list := [];
    if es != {} {
      var e :| e in es;
      var rest := Listed(es - {e});
      list := Insert(rest, e);
    }
  }

  /** A pass that holds the envelope can replay as far as it takes. */
  lemma ReplayReads(s: State, id: nat, e: Envelope) returns (step: Step)
    requires Holds(s, id, e) && !Unreadable(s, e)
    ensures Enabled(s, step) && e in Next(s, step).done
  {
    var f := if Gated(e) then e.epoch.value else s.at;
    step := Replay(id, Some(f), f, f);
  }

  lemma FetchHolds(s: State, e: Envelope) returns (step: Step)
    requires e in s.envs && Above(s.cursor, e.sentAt)
    ensures Enabled(s, step) && step.Fetch? && Holds(Next(s, step), step.id, e)
  {
    var id := FreshId(s.passes.Keys);
    var list := Listed(set x | x in s.envs && Above(s.cursor, x.sentAt));
    step := Fetch(id, list);
  }

  ghost predicate LeadsTo(s: State, states: seq<State>, steps: seq<Step>, e: Envelope) {
    Run(states, steps) && states[0] == s && e in states[|steps|].done
  }

  lemma StillReadable(s: State, e: Envelope) returns (states: seq<State>, steps: seq<Step>)
    requires e in s.envs && !Missed(s, e)
    ensures LeadsTo(s, states, steps, e)
  {
    if e in s.done {
      states, steps := [s], [];
    } else if Pending(s, e) {
      var id :| Holds(s, id, e);
      var step := ReplayReads(s, id, e);
      states, steps := [s, Next(s, step)], [step];
    } else {
      var fetch := FetchHolds(s, e);
      var t := Next(s, fetch);
      var replay := ReplayReads(t, fetch.id, e);
      states, steps := [s, t, Next(t, replay)], [fetch, replay];
    }
  }

  /** A stored message can still be dealt with, by some continuation of the run, exactly if it is not missed. */
  lemma NoLostMessage(s: State, e: Envelope)
    requires e in s.envs
    ensures (exists states, steps :: LeadsTo(s, states, steps, e)) <==> !Missed(s, e)
  {
    if Missed(s, e) {
      forall states, steps
        ensures !LeadsTo(s, states, steps, e)
      {
        if LeadsTo(s, states, steps, e) {
          MissedForGood(states, steps, 0, |steps|, e);
          assert false;
        }
      }
    } else {
      var states, steps := StillReadable(s, e);
      assert LeadsTo(s, states, steps, e);
    }
  }

  // ---------------------------------------------------------------- arrivals at risk

  /** No pass under way that lacks the envelope can move the cursor past it, or the group past its epoch. */
  ghost predicate ClearOf(s: State, id: nat, e: Envelope)
    requires id in s.passes
  {
    match s.passes[id]
    case Fetched(list) => e in list || (!Gated(e) && forall x :: x in list ==> x.sentAt < e.sentAt)
    case Replayed(list, fired) => Above(NextWatermark(list, fired), e.sentAt)
  }

  /** Above the cursor, at an epoch the group has not left, and clear of every pass under way. */
  ghost predicate Ahead(s: State, e: Envelope) {
    && Above(s.cursor, e.sentAt) && !Unreadable(s, e)
    && forall id :: id in s.passes ==> ClearOf(s, id, e)
  }

  ghost predicate OnlyPasses(steps: seq<Step>) {
    forall i :: 0 <= i < |steps| ==> steps[i].Replay? || steps[i].Finish? || steps[i].Abandon?
  }

  ghost predicate LeadsToMissed(s: State, states: seq<State>, steps: seq<Step>, e: Envelope) {
    Run(states, steps) && states[0] == s && OnlyPasses(steps) && Missed(states[|steps|], e)
  }

  /** No pass that could read it holds the envelope: true of every new arrival. */
  ghost predicate Unfetched(s: State, e: Envelope) {
    forall id :: id in s.passes ==> e !in s.passes[id].list
  }

  /** The cursor a pass computes is the send time of one of its envelopes. */
  lemma NewerStaysAbove(list: seq<Envelope>, fired: Option<nat>, e: Envelope)
    requires forall x :: x in list ==> x.sentAt < e.sentAt
    ensures Above(NextWatermark(list, fired), e.sentAt)
  {
    var n := Walked(list, StopAt(list, fired), 0);
    if n > 0 {
      assert list[n - 1] in list;
    }
  }

  lemma PassStepKeepsAhead(s: State, step: Step, e: Envelope)
    requires Inv(s) && Enabled(s, step) && (step.Replay? || step.Finish? || step.Abandon?)
    requires e in s.envs && Ahead(s, e) && Unfetched(s, e)
    ensures Ahead(Next(s, step), e) && Unfetched(Next(s, step), e)
  {
    var t := Next(s, step);
    assert ClearOf(s, step.id, e);
    forall id | id in t.passes
      ensures ClearOf(t, id, e)
    {
      assert ClearOf(s, id, e);
      if step.Replay? && id == step.id {
        NewerStaysAbove(s.passes[id].list, step.fired, e);
      }
    }
  }

  lemma {:induction false} AheadIsSafe(states: seq<State>, steps: seq<Step>, n: nat, e: Envelope)
    requires Run(states, steps) && OnlyPasses(steps) && n < |states| && Inv(states[0])
    requires e in states[0].envs && Ahead(states[0], e) && Unfetched(states[0], e)
    ensures Inv(states[n]) && e in states[n].envs && Ahead(states[n], e) && Unfetched(states[n], e)
  {
    if n > 0 {
      AheadIsSafe(states, steps, n - 1, e);
      assert Follows(states[n - 1], steps[n - 1], states[n - 1 + 1]);
      StepKeepsInv(states[n - 1], steps[n - 1]);
      PassStepKeepsAhead(states[n - 1], steps[n - 1], e);
    }
  }

  /** Some epoch is late enough for a pass to handle a whole list. */
  lemma {:induction false} EpochForAll(list: seq<Envelope>, at: nat) returns (fired: nat)
    ensures at <= fired && forall i :: 0 <= i < |list| ==> Handled(list[i], Some(fired))
  {
    if list == [] {
      fired := at;
    } else {
      var rest := EpochForAll(list[1..], at);
      var e := list[0].epoch;
      fired := if e.Some? && e.value > rest then e.value else rest;
      forall i | 0 <= i < |list|
        ensures Handled(list[i], Some(fired))
      {
        assert i > 0 ==> list[1..][i - 1] == list[i];
      }
    }
  }

  lemma PassesNewest(list: seq<Envelope>, fired: Option<nat>, x: Envelope)
    requires Sorted(list) && x in list && forall i :: 0 <= i < |list| ==> Handled(list[i], fired)
    ensures NextWatermark(list, fired).Some? && x.sentAt <= NextWatermark(list, fired).value
  {
    AllHandledReachesEnd(list, fired);
    var i :| 0 <= i < |list| && list[i] == x;
    assert list[i].sentAt <= list[|list| - 1].sentAt;
  }

  lemma NotPending(s: State, e: Envelope)
    requires Unfetched(s, e)
    ensures !Pending(s, e)
  {
  }

  /** A replay that leaves the epoch of a message it does not hold. */
  lemma ReplayCanMiss(s: State, id: nat, e: Envelope) returns (states: seq<State>, steps: seq<Step>)
    requires e in s.envs && e !in s.done && Gated(e)
    requires id in s.passes && s.passes[id].Fetched? && e !in s.passes[id].list
    ensures LeadsToMissed(s, states, steps, e)
  {
    var f: nat := if e.epoch.value < s.at then s.at else e.epoch.value + 1;
    var step := Replay(id, Some(f), f, f);
    states, steps := [s, Next(s, step)], [step];
  }

  /** A cursor that a pass has computed past a message nobody holds. */
  lemma FinishCanMiss(s: State, id: nat, e: Envelope)
    requires Enabled(s, Finish(id)) && !ClearOf(s, id, e) && e in s.envs && e !in s.done && Unfetched(s, e)
    ensures Missed(Next(s, Finish(id)), e)
  {
    NotPending(Next(s, Finish(id)), e);
  }

  /** A pass that handles all of a list with a newer message in it. */
  lemma CursorCanMiss(s: State, id: nat, e: Envelope, x: Envelope) returns (states: seq<State>, steps: seq<Step>)
    requires Inv(s) && e in s.envs && e !in s.done && Unfetched(s, e)
    requires id in s.passes && s.passes[id].Fetched? && x in s.passes[id].list && x.sentAt >= e.sentAt
    ensures LeadsToMissed(s, states, steps, e)
  {
    assert PassMatches(s, id);
    var f := EpochForAll(s.passes[id].list, s.at);
    PassesNewest(s.passes[id].list, Some(f), x);
    var step := Replay(id, Some(f), f, f);
    var t := Next(s, step);
    FinishCanMiss(t, id, e);
    states, steps := [s, t, Next(t, Finish(id))], [step, Finish(id)];
  }

  /** A pass without the envelope that is not clear of it can make it missed. */
  lemma PassCanMiss(s: State, id: nat, e: Envelope) returns (states: seq<State>, steps: seq<Step>)
    requires Inv(s) && e in s.envs && e !in s.done && Unfetched(s, e) && id in s.passes && !ClearOf(s, id, e)
    ensures LeadsToMissed(s, states, steps, e)
  {
    if s.passes[id].Replayed? {
      FinishCanMiss(s, id, e);
      states, steps := [s, Next(s, Finish(id))], [Finish(id)];
    } else if Gated(e) {
      states, steps := ReplayCanMiss(s, id, e);
    } else {
      var x :| x in s.passes[id].list && x.sentAt >= e.sentAt;
      states, steps := CursorCanMiss(s, id, e, x);
    }
  }

  lemma AtRisk(t: State, e: Envelope) returns (states: seq<State>, steps: seq<Step>)
    requires Inv(t) && e in t.envs && e !in t.done && Unfetched(t, e) && !Ahead(t, e)
    ensures LeadsToMissed(t, states, steps, e)
  {
    if !Above(t.cursor, e.sentAt) || Unreadable(t, e) {
      states, steps := [t], [];
      NotPending(t, e);
    } else {
      var id :| id in t.passes && !ClearOf(t, id, e);
      states, steps := PassCanMiss(t, id, e);
    }
  }

  /**
   * The passes under way can make a new arrival missed exactly if it is at or below the cursor, at
   * an epoch the group has left, or not clear of one of them.
   */
  lemma ArrivesAheadIsExact(s: State, e: Envelope)
    requires Inv(s) && e !in s.envs
    ensures var t := Next(s, Arrive(e));
            (exists states, steps :: LeadsToMissed(t, states, steps, e)) <==> !Ahead(t, e)
  {
    var t := Next(s, Arrive(e));
    StepKeepsInv(s, Arrive(e));
    forall id | id in t.passes
      ensures e !in t.passes[id].list
    {
      assert PassMatches(s, id);
    }
    if Ahead(t, e) {
      forall states, steps
        ensures !LeadsToMissed(t, states, steps, e)
      {
        if Run(states, steps) && states[0] == t && OnlyPasses(steps) {
          AheadIsSafe(states, steps, |steps|, e);
        }
      }
    } else {
      var states, steps := AtRisk(t, e);
      assert LeadsToMissed(t, states, steps, e);
    }
  }

  // ---------------------------------------------------------------- every message is read

  /** Everything stored is dealt with or ahead. */
  ghost predicate AheadInv(s: State) {
    forall e :: e in s.envs ==> e in s.done || Ahead(s, e)
  }

  /** An envelope the replay leaves unread although it moves the group past it, or lets its own cursor past it. */
  ghost predicate LeftBehind(s: State, step: Step, e: Envelope)
    requires step.Replay? && Enabled(s, step)
  {
    && e in s.envs && e !in s.done && !(e in s.passes[step.id].list && Reads(s.at, step.fired, step.reached, e))
    && ((Gated(e) && e.epoch.value < step.to) || !Above(NextWatermark(s.passes[step.id].list, step.fired), e.sentAt))
  }

  /** The steps that put a message at risk. */
  ghost predicate Strands(s: State, step: Step)
    requires Enabled(s, step)
  {
    match step
    case Arrive(e) => !Ahead(s, e)
    case Replay(_, _, _, _) => exists e :: LeftBehind(s, step, e)
    case Move(to) => exists e :: e in s.envs && e !in s.done && Gated(e) && e.epoch.value < to
    case _ => false
  }

  lemma ArriveKeepsAhead(s: State, e: Envelope)
    requires Inv(s) && AheadInv(s) && e !in s.envs
    ensures AheadInv(Next(s, Arrive(e))) <==> Ahead(s, e)
  {
    var t := Next(s, Arrive(e));
    forall x | x in t.envs
      ensures Ahead(t, x) <==> Ahead(s, x)
    {
      forall id | id in s.passes
        ensures ClearOf(t, id, x) <==> ClearOf(s, id, x)
      {
      }
    }
    assert e !in t.done;
  }

  lemma FetchKeepsAhead(s: State, id: nat, list: seq<Envelope>)
    requires AheadInv(s) && Enabled(s, Fetch(id, list))
    ensures AheadInv(Next(s, Fetch(id, list)))
  {
    var t := Next(s, Fetch(id, list));
    forall e | e in t.envs && e !in t.done
      ensures Ahead(t, e)
    {
      assert Ahead(s, e);
      forall i | i in t.passes
        ensures ClearOf(t, i, e)
      {
        assert i != id ==> ClearOf(s, i, e);
      }
    }
  }

  lemma LeaveKeepsAhead(s: State, step: Step)
    requires AheadInv(s) && Enabled(s, step) && (step.Finish? || step.Abandon?)
    ensures AheadInv(Next(s, step))
  {
    var t := Next(s, step);
    forall e | e in t.envs && e !in t.done
      ensures Ahead(t, e)
    {
      assert Ahead(s, e);
      assert ClearOf(s, step.id, e);
      forall i | i in t.passes
        ensures ClearOf(t, i, e)
      {
        assert ClearOf(s, i, e);
      }
    }
  }

  lemma ReplayKeepsAhead(s: State, step: Step)
    requires AheadInv(s) && step.Replay? && Enabled(s, step)
    ensures AheadInv(Next(s, step)) <==> !Strands(s, step)
  {
    var t := Next(s, step);
    forall e | e in s.envs && e !in t.done
      ensures Ahead(t, e) <==> !LeftBehind(s, step, e)
    {
      assert Ahead(s, e);
      assert t.passes[step.id] == Replayed(s.passes[step.id].list, step.fired);
      forall i | i in t.passes && i != step.id
        ensures ClearOf(t, i, e)
      {
        assert ClearOf(s, i, e);
      }
      assert ClearOf(t, step.id, e) <==> Above(NextWatermark(s.passes[step.id].list, step.fired), e.sentAt);
    }
  }

  lemma MoveKeepsAhead(s: State, to: nat)
    requires AheadInv(s) && s.at <= to
    ensures AheadInv(Next(s, Move(to))) <==> !Strands(s, Move(to))
  {
    var t := Next(s, Move(to));
    forall e | e in s.envs && e !in s.done
      ensures Ahead(t, e) <==> !(Gated(e) && e.epoch.value < to)
    {
      assert Ahead(s, e);
      forall i | i in t.passes
        ensures ClearOf(t, i, e)
      {
        assert ClearOf(s, i, e);
      }
    }
  }

  /** Every step keeps every message dealt with or ahead, exactly unless it is one of those that strand one. */
  lemma StepKeepsAhead(s: State, step: Step)
    requires Inv(s) && AheadInv(s) && Enabled(s, step)
    ensures AheadInv(Next(s, step)) <==> !Strands(s, step)
  {
    match step
    case Arrive(e) => ArriveKeepsAhead(s, e);
    case Fetch(id, list) => FetchKeepsAhead(s, id, list);
    case Replay(_, _, _, _) => ReplayKeepsAhead(s, step);
    case Finish(_) => LeaveKeepsAhead(s, step);
    case Abandon(_) => LeaveKeepsAhead(s, step);
    case Move(to) => MoveKeepsAhead(s, to);
  }

  /** A replay that ends where the hook last fired, or that finds no group and joins none, strands nothing. */
  lemma PlainReplayIsSafe(s: State, step: Step)
    requires Inv(s) && AheadInv(s) && step.Replay? && Enabled(s, step)
    requires if step.fired.Some? then step.fired.value == step.reached == step.to else step.to == s.at
    ensures !Strands(s, step)
  {
    var list := s.passes[step.id].list;
    assert PassMatches(s, step.id);
    forall e | e in s.envs && e !in s.done && !(e in list && Reads(s.at, step.fired, step.reached, e))
      ensures !LeftBehind(s, step, e)
    {
      assert Ahead(s, e) && ClearOf(s, step.id, e);
      if e in list {
        UnhandledStaysAbove(list, step.fired, e);
      } else {
        NewerStaysAbove(list, step.fired, e);
      }
    }
  }

  ghost predicate SafelyFollows(s: State, step: Step, t: State) {
    Follows(s, step, t) && !Strands(s, step)
  }

  /** In a run without such steps no message is ever missed: each is dealt with, or the next pass can read it. */
  lemma {:induction false} AheadNoLoss(states: seq<State>, steps: seq<Step>, n: nat)
    requires Run(states, steps) && Initial(states[0]) && n < |states|
    requires forall i :: 0 <= i < n ==> SafelyFollows(states[i], steps[i], states[i + 1])
    ensures AheadInv(states[n]) && forall e :: !Missed(states[n], e)
  {
    if n > 0 {
      AheadNoLoss(states, steps, n - 1);
      RunInv(states, steps, n - 1);
      assert SafelyFollows(states[n - 1], steps[n - 1], states[n - 1 + 1]);
      StepKeepsAhead(states[n - 1], steps[n - 1]);
    }
    forall e | e in states[n].envs && e !in states[n].done
      ensures !Missed(states[n], e)
    {
      assert Ahead(states[n], e);
    }
  }

  // ---------------------------------------------------------------- messages that are missed

  /**
   * Arriving above the cursor is not enough: a message that arrives while a pass holds a newer
   * one, or one of the same send time, is lost when that pass finishes.
   */
  lemma LostBetweenFetchAndFinish(a: Envelope, b: Envelope)
    returns (s0: State, s1: State, s2: State, s3: State, s4: State, s5: State, f: nat)
    requires a != b && b.sentAt <= a.sentAt
    ensures Initial(s0) && Follows(s0, Arrive(a), s1) && Follows(s1, Fetch(0, [a]), s2) && Follows(s2, Arrive(b), s3)
    ensures Above(s2.cursor, b.sentAt) && Follows(s3, Replay(0, Some(f), f, f), s4) && Follows(s4, Finish(0), s5)
    ensures Missed(s5, b) && Lost(s5, b)
  {
    s0 := State({}, None, map[], 0, {});
    f := EpochForAll([a], 0);
    s1 := Next(s0, Arrive(a));
    s2 := Next(s1, Fetch(0, [a]));
    s3 := Next(s2, Arrive(b));
    s4 := Next(s3, Replay(0, Some(f), f, f));
    AllHandledReachesEnd([a], Some(f));
    s5 := Next(s4, Finish(0));
  }

  /**
   * Nor is arriving newer than everything fetched: a message sealed at the group's epoch that
   * arrives after the fetch is out of reach once the replay has left that epoch.  The next pass
   * fetches it, counts it as handled, and moves the cursor past it unread.
   */
  lemma LeftBehindByReplay(b: Envelope)
    returns (s0: State, s1: State, s2: State, s3: State, s4: State, s5: State, s6: State, s7: State)
    requires Gated(b)
    ensures var f := b.epoch.value;
            && Initial(s0) && s0.at == f && Follows(s0, Fetch(0, []), s1) && Follows(s1, Arrive(b), s2)
            && Above(s1.cursor, b.sentAt) && !Unreadable(s2, b)
            && Follows(s2, Replay(0, Some(f + 1), f + 1, f + 1), s3) && Follows(s3, Finish(0), s4) && Missed(s4, b)
            && Follows(s4, Fetch(1, [b]), s5) && Follows(s5, Replay(1, Some(f + 1), f + 1, f + 1), s6)
            && Follows(s6, Finish(1), s7) && Missed(s7, b) && !Above(s7.cursor, b.sentAt)
  {
    var f := b.epoch.value;
    s0 := State({}, None, map[], f, {});
    s1 := Next(s0, Fetch(0, []));
    s2 := Next(s1, Arrive(b));
    s3 := Next(s2, Replay(0, Some(f + 1), f + 1, f + 1));
    s4 := Next(s3, Finish(0));
    s5 := Next(s4, Fetch(1, [b]));
    s6 := Next(s5, Replay(1, Some(f + 1), f + 1, f + 1));
    AllHandledReachesEnd([b], Some(f + 1));
    s7 := Next(s6, Finish(1));
  }

  /**
   * Nor is a single pass with nothing else going on: when the hook fires for an epoch the group
   * has not reached, a message of that epoch counts as handled and is lost.
   */
  lemma LostAtOwnRow(b: Envelope) returns (s0: State, s1: State, s2: State, s3: State, s4: State)
    requires Gated(b) && b.epoch.value > 0
    ensures var f := b.epoch.value;
            && Initial(s0) && s0.at == f - 1 && Follows(s0, Arrive(b), s1) && Follows(s1, Fetch(0, [b]), s2)
            && Follows(s2, Replay(0, Some(f), f - 1, f - 1), s3) && Follows(s3, Finish(0), s4)
            && Missed(s4, b) && !Unreadable(s4, b)
  {
    var f := b.epoch.value;
    s0 := State({}, None, map[], f - 1, {});
    s1 := Next(s0, Arrive(b));
    s2 := Next(s1, Fetch(0, [b]));
    s3 := Next(s2, Replay(0, Some(f), f - 1, f - 1));
    AllHandledReachesEnd([b], Some(f));
    s4 := Next(s3, Finish(0));
  }

  /** A pass that handles all it fetched brings the cursor to the newest envelope it saw. */
  lemma FullPassReachesNewest(s: State, id: nat)
    requires Inv(s) && Enabled(s, Finish(id)) && forall e :: e in s.passes[id].list ==> Handled(e, s.passes[id].fired)
    ensures forall e :: e in s.passes[id].list ==> !Above(Next(s, Finish(id)).cursor, e.sentAt)
  {
    assert PassMatches(s, id);
    forall e | e in s.passes[id].list
      ensures !Above(Next(s, Finish(id)).cursor, e.sentAt)
    {
      PassesNewest(s.passes[id].list, s.passes[id].fired, e);
    }
  }
}
