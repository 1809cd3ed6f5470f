/**
 * The per-conversation lock: a map from conversation to lock, itself behind a mutex.  Tasks
 * interleave freely between the await points of the acquire routine.
 */
module GroupLocks {
  import opened Common

  type Conversation = string
  type LockId = nat
  type Task = nat

  /** Where a task is in the acquire routine. */
  datatype Place =
    | Outside
    | WantsMap(id: Conversation)
    | HoldsMap(id: Conversation)
    | Cloned(id: Conversation, lock: LockId)
    | WantsEntry(id: Conversation, lock: LockId)
    | HoldsGuard(id: Conversation, lock: LockId)

  datatype State = State(
    locks: map<Conversation, LockId>,
    created: nat,
    mapHolder: Option<Task>,
    held: map<LockId, Task>,
    places: map<Task, Place>)

  datatype Step =
    | Call(t: Task, id: Conversation)
    | LockMap(t: Task)
    | GetOrInsert(t: Task)
    | UnlockMap(t: Task)
    | LockEntry(t: Task)
    | Cancel(t: Task)
    | DropGuard(t: Task)

  predicate Enabled(s: State, step: Step) {
    && step.t in s.places
    && var p := s.places[step.t];
       match step
       case Call(_, _) => p.Outside?
       case LockMap(_) => p.WantsMap? && s.mapHolder.None?
       case GetOrInsert(_) => p.HoldsMap?
       case UnlockMap(_) => p.Cloned?
       case LockEntry(_) => p.WantsEntry? && p.lock !in s.held
       case Cancel(_) => p.WantsMap? || p.WantsEntry?
       case DropGuard(_) => p.HoldsGuard?
  }

  function Move(s: State, t: Task, p: Place): State {
    s.(places := s.places[t := p])
  }

  function Next(s: State, step: Step): State
    requires Enabled(s, step)
  {
    var t := step.t;
    var p := s.places[t];
    match step
    case Call(_, id) => Move(s, t, WantsMap(id))
    case LockMap(_) => Move(s, t, HoldsMap(p.id)).(mapHolder := Some(t))
    case GetOrInsert(_) =>
      if p.id in s.locks then Move(s, t, Cloned(p.id, s.locks[p.id]))
      else Move(s, t, Cloned(p.id, s.created)).(locks := s.locks[p.id := s.created], created := s.created + 1)
    case UnlockMap(_) => Move(s, t, WantsEntry(p.id, p.lock)).(mapHolder := None)
    case LockEntry(_) => Move(s, t, HoldsGuard(p.id, p.lock)).(held := s.held[p.lock := t])
    case Cancel(_) => Move(s, t, Outside)
    case DropGuard(_) => Move(s, t, Outside).(held := s.held - {p.lock})
  }

  /** The table itself, as the routine updates it between locking and unlocking the map. */
  class LockTable {
    var locks: map<Conversation, LockId>
    var created: nat

    ghost predicate Valid()
      reads this
    {
      Distinct(locks) && forall id :: id in locks ==> locks[id] < created
    }

    constructor ()
      ensures Valid() && locks == map[] && created == 0
    {
      locks, created := map[], 0;
    }

    /** Returns the conversation's lock, making a new one the first time; no other binding changes. */
    method Entry(id: Conversation) returns (lock: LockId)
      requires Valid()
      modifies this
      ensures Valid()
      ensures id in old(locks) ==> locks == old(locks) && lock == old(locks)[id]
      ensures id !in old(locks) ==> locks == old(locks)[id := lock] && lock !in old(locks).Values
      ensures forall s: State, t: Task ::
                s.locks == old(locks) && s.created == old(created) && t in s.places && s.places[t] == HoldsMap(id) ==>
                Next(s, GetOrInsert(t)) == Move(s, t, Cloned(id, lock)).(locks := locks, created := created)
    {
      if id !in locks {
        locks := locks[id := created];
        created := created + 1;
      }
      lock := locks[id];
    }
  }

  // ---------------------------------------------------------------- the invariant

  /** The lock a task carries is the one the map binds to its conversation. */
  predicate PlaceMatches(s: State, t: Task, p: Place) {
    && (p.Cloned? || p.WantsEntry? || p.HoldsGuard? ==> p.id in s.locks && s.locks[p.id] == p.lock)
    && (p.HoldsMap? || p.Cloned? <==> s.mapHolder == Some(t))
    && (p.HoldsGuard? ==> p.lock in s.held && s.held[p.lock] == t)
  }

  ghost predicate Distinct(locks: map<Conversation, LockId>) {
    forall a, b :: a in locks && b in locks && locks[a] == locks[b] ==> a == b
  }

  ghost predicate Inv(s: State) {
    && (forall t :: t in s.places ==> PlaceMatches(s, t, s.places[t]))
    && Distinct(s.locks) && (forall id :: id in s.locks ==> s.locks[id] < s.created)
    && (s.mapHolder.Some? ==> s.mapHolder.value in s.places)
    && (forall k :: k in s.held ==> HeldByGuard(s, k))
  }

  predicate HeldByGuard(s: State, k: LockId)
    requires k in s.held
  {
    s.held[k] in s.places && s.places[s.held[k]].HoldsGuard? && s.places[s.held[k]].lock == k
  }

  ghost predicate Initial(s: State) {
    && s.locks == map[] && s.mapHolder.None? && s.held == map[]
    && forall t :: t in s.places ==> s.places[t].Outside?
  }

  lemma StepKeepsPlace(s: State, step: Step, t: Task)
    requires Inv(s) && Enabled(s, step) && t in s.places
    ensures PlaceMatches(Next(s, step), t, Next(s, step).places[t])
  {
    assert PlaceMatches(s, t, s.places[t]) && PlaceMatches(s, step.t, s.places[step.t]);
  }

  lemma StepKeepsHeld(s: State, step: Step, k: LockId)
    requires Inv(s) && Enabled(s, step) && k in Next(s, step).held
    ensures HeldByGuard(Next(s, step), k)
  {
    assert PlaceMatches(s, step.t, s.places[step.t]);
    if k in s.held {
      assert HeldByGuard(s, k);
      assert PlaceMatches(s, s.held[k], s.places[s.held[k]]);
    }
  }

  lemma StepKeepsInv(s: State, step: Step)
    requires Inv(s) && Enabled(s, step)
    ensures Inv(Next(s, step))
  {
    var s' := Next(s, step);
    forall t | t in s'.places
      ensures PlaceMatches(s', t, s'.places[t])
    {
      StepKeepsPlace(s, step, t);
    }
    forall k | k in s'.held
      ensures HeldByGuard(s', k)
    {
      StepKeepsHeld(s, step, k);
    }
    assert PlaceMatches(s, step.t, s.places[step.t]);
  }

  // ---------------------------------------------------------------- whole runs

  ghost predicate Run(states: seq<State>, steps: seq<Step>) {
    && |states| == |steps| + 1
    && forall i :: 0 <= i < |steps| ==> Follows(states[i], steps[i], states[i + 1])
  }

  ghost predicate Follows(s: State, step: Step, s': State) {
    Enabled(s, step) && s' == Next(s, step)
  }

  lemma {:induction false} RunInv(states: seq<State>, steps: seq<Step>, n: nat)
    requires Run(states, steps) && Initial(states[0]) && n < |states|
    ensures Inv(states[n])
  {
    if n > 0 {
      RunInv(states, steps, n - 1);
      assert Follows(states[n - 1], steps[n - 1], states[n - 1 + 1]);
      StepKeepsInv(states[n - 1], steps[n - 1]);
    }
  }

  /** No two tasks ever hold a guard for one conversation. */
  lemma MutualExclusion(states: seq<State>, steps: seq<Step>, n: nat, a: Task, b: Task)
    requires Run(states, steps) && Initial(states[0]) && n < |states|
    requires a in states[n].places && b in states[n].places
    requires states[n].places[a].HoldsGuard? && states[n].places[b].HoldsGuard?
    ensures states[n].places[a].id == states[n].places[b].id ==> a == b
    ensures states[n].places[a].id != states[n].places[b].id ==> states[n].places[a].lock != states[n].places[b].lock
  {
    var s := states[n];
    RunInv(states, steps, n);
    assert PlaceMatches(s, a, s.places[a]) && PlaceMatches(s, b, s.places[b]);
  }

  /** Once a conversation has a lock it keeps that lock, and different conversations never share one. */
  lemma {:induction false} BindingIsFixed(states: seq<State>, steps: seq<Step>, i: nat, j: nat, id: Conversation)
    requires Run(states, steps) && Initial(states[0]) && i <= j < |states|
    requires id in states[i].locks
    ensures id in states[j].locks && states[j].locks[id] == states[i].locks[id]
    ensures Distinct(states[j].locks)
  {
    RunInv(states, steps, j);
    if i < j {
      BindingIsFixed(states, steps, i, j - 1, id);
      assert Follows(states[j - 1], steps[j - 1], states[j - 1 + 1]);
    }
  }

  /** A task that waits for its entry waits only for a guard of its own conversation. */
  lemma WaitsOnlyForSameConversation(states: seq<State>, steps: seq<Step>, n: nat, t: Task)
    requires Run(states, steps) && Initial(states[0]) && n < |states|
    requires t in states[n].places && states[n].places[t].WantsEntry? && !Enabled(states[n], LockEntry(t))
    ensures exists g :: g in states[n].places && states[n].places[g].HoldsGuard?
                        && states[n].places[g].id == states[n].places[t].id
  {
    var s := states[n];
    RunInv(states, steps, n);
    assert PlaceMatches(s, t, s.places[t]);
    var k := s.places[t].lock;
    assert HeldByGuard(s, k);
    assert PlaceMatches(s, s.held[k], s.places[s.held[k]]);
  }

  /** The acquire routine never deadlocks: while any task is inside it, some task inside it can move. */
  lemma NeverStuck(states: seq<State>, steps: seq<Step>, n: nat, t: Task)
    requires Run(states, steps) && Initial(states[0]) && n < |states|
    requires t in states[n].places && !states[n].places[t].Outside?
    ensures exists step: Step :: Enabled(states[n], step) && !step.Call? && !step.Cancel?
  {
    var s := states[n];
    RunInv(states, steps, n);
    assert PlaceMatches(s, t, s.places[t]);
    if s.mapHolder.Some? {
      var h := s.mapHolder.value;
      assert PlaceMatches(s, h, s.places[h]);
      assert Enabled(s, if s.places[h].HoldsMap? then GetOrInsert(h) else UnlockMap(h));
    } else if s.places[t].WantsMap? {
      assert Enabled(s, LockMap(t));
    } else if s.places[t].HoldsGuard? {
      assert Enabled(s, DropGuard(t));
    } else if s.places[t].lock in s.held {
      assert HeldByGuard(s, s.places[t].lock);
      assert Enabled(s, DropGuard(s.held[s.places[t].lock]));
    } else {
      assert Enabled(s, LockEntry(t));
    }
  }

  /** A waiting task, and no other, can be dropped: it leaves, and nothing else changes. */
  lemma CancelIsExact(s: State, t: Task)
    requires t in s.places
    ensures Enabled(s, Cancel(t)) <==> s.places[t].WantsMap? || s.places[t].WantsEntry?
    ensures Enabled(s, Cancel(t)) ==> Next(s, Cancel(t)) == s.(places := s.places[t := Outside])
  {
  }

  /** Whoever holds the lock bound to a conversation is in a guard of that conversation. */
  lemma HolderIsGuard(s: State, id: Conversation)
    requires Inv(s) && id in s.locks && s.locks[id] in s.held
    ensures var g := s.held[s.locks[id]];
            g in s.places && s.places[g].HoldsGuard? && s.places[g].id == id
  {
    var k := s.locks[id];
    assert HeldByGuard(s, k);
    assert PlaceMatches(s, s.held[k], s.places[s.held[k]]);
  }

  lemma HeldIsCreated(s: State)
    requires Inv(s)
    ensures forall k :: k in s.held ==> k < s.created
  {
    forall k | k in s.held
      ensures k < s.created
    {
      assert HeldByGuard(s, k);
      assert PlaceMatches(s, s.held[k], s.places[s.held[k]]);
    }
  }

  /** With the map free and nobody holding the conversation, five steps of its own bring a task its guard. */
  lemma AcquireAlone(s: State, t: Task, id: Conversation)
    returns (s1: State, s2: State, s3: State, s4: State, s5: State)
    requires Inv(s) && t in s.places && s.places[t].Outside? && s.mapHolder.None?
    requires forall g :: g in s.places && s.places[g].HoldsGuard? ==> s.places[g].id != id
    ensures Follows(s, Call(t, id), s1) && Follows(s1, LockMap(t), s2) && Follows(s2, GetOrInsert(t), s3)
    ensures Follows(s3, UnlockMap(t), s4) && Follows(s4, LockEntry(t), s5)
    ensures s5.places[t].HoldsGuard? && s5.places[t].id == id && s5.mapHolder == None
    ensures forall g :: g in s.places && g != t ==> g in s5.places && s5.places[g] == s.places[g]
  {
    s1 := Next(s, Call(t, id));
    s2 := Next(s1, LockMap(t));
    s3 := Next(s2, GetOrInsert(t));
    s4 := Next(s3, UnlockMap(t));
    if id in s.locks && s.locks[id] in s.held {
      HolderIsGuard(s, id);
      assert false;
    }
    HeldIsCreated(s);
    s5 := Next(s4, LockEntry(t));
  }
}
