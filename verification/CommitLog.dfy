/**
 * The Delivery Service's commit log for one conversation: the conditional append that decides
 * which commit wins an epoch, the catch-up read, the reports of how far each device has come,
 * and the pruning that keeps the log bounded.
 */
module CommitLog {
  import opened Common

  type Device = string

  /** A commit as the log stores it; `author` is the device that built it. */
  datatype Commit = Commit(author: Device, data: seq<Byte>)

  /** The newest published GroupInfo; what the blob stands for is left to the type `P`. */
  datatype GroupInfo<P> = GroupInfo(epoch: int, blob: P)

  datatype WelcomeOut<P> = WelcomeOut(recipient: Device, blob: P)

  datatype Welcome<P> = Welcome(blob: P, delivered: bool)

  datatype Submission<P> = Submission(basedOn: int, commit: Commit, groupInfo: Option<P>,
                                      welcomes: seq<WelcomeOut<P>>)

  datatype Row = Row(epoch: int, commit: Commit)

  datatype SubmitResponse = Accepted(epoch: int) | Rejected(head: int, missing: seq<Row>)

  datatype PruneReport = PruneReport(floor: int, deleted: nat)

  /** The rows the service keeps for one conversation. */
  datatype Service<P> = Service(
    rows: map<int, Commit>,
    groupInfo: Option<GroupInfo<P>>,
    welcomes: map<Device, Welcome<P>>,
    since: map<Device, int>)

  // ---------------------------------------------------------------- the head

  ghost predicate IsMax(keys: set<int>, m: int) {
    m in keys && forall k: int :: k in keys ==> k <= m
  }

  lemma Inhabited(keys: set<int>)
    requires keys != {}
    ensures exists k: int :: k in keys
  {
    if forall k: int :: k !in keys {
      assert false;
    }
  }

  lemma {:induction false} MaxExists(keys: set<int>)
    requires keys != {}
    ensures exists m :: IsMax(keys, m)
    decreases |keys|
  {
    Inhabited(keys);
    var k: int :| k in keys;
    var rest := keys - {k};
    if rest == {} {
      assert keys == {k};
      assert IsMax(keys, k);
    } else {
      MaxExists(rest);
      var m :| IsMax(rest, m);
      assert forall j: int :: j in keys ==> j == k || j in rest;
      assert IsMax(keys, if k <= m then m else k);
    }
  }

  /** One past the greatest epoch in the log, zero for an empty log. */
  ghost function HeadEpoch(keys: set<int>): (h: int)
    ensures keys == {} ==> h == 0
    ensures keys != {} ==> IsMax(keys, h - 1)
  {
    if keys == {} then 0 else
      MaxExists(keys);
      var m :| IsMax(keys, m);
      m + 1
  }

  // ---------------------------------------------------------------- submitting

  /** The GroupInfo row after an upsert that only ever moves to a later epoch. */
  function Published<P>(current: Option<GroupInfo<P>>, epoch: int, blob: P): Option<GroupInfo<P>> {
    if current.None? || epoch > current.value.epoch then Some(GroupInfo(epoch, blob)) else current
  }

  /** Each Welcome replaces its recipient's row and arms it for delivery again. */
  function Delivered<P>(welcomes: map<Device, Welcome<P>>, sent: seq<WelcomeOut<P>>): map<Device, Welcome<P>>
    decreases |sent|
  {
    if sent == [] then welcomes else
      var w := sent[|sent| - 1];
      Delivered(welcomes, sent[..|sent| - 1])[w.recipient := Welcome(w.blob, false)]
  }

  /** The service after a submission that won its epoch. */
  function Won<P>(sv: Service<P>, b: Submission<P>): Service<P> {
    sv.(rows := sv.rows[b.basedOn := b.commit],
        groupInfo := if b.groupInfo.None? then sv.groupInfo
                     else Published(sv.groupInfo, b.basedOn + 1, b.groupInfo.value),
        welcomes := Delivered(sv.welcomes, b.welcomes))
  }

  /** The newest Welcome in a list for a recipient. */
  function LastFor<P>(sent: seq<WelcomeOut<P>>, d: Device): Option<P>
    decreases |sent|
  {
    if sent == [] then None
    else if sent[|sent| - 1].recipient == d then Some(sent[|sent| - 1].blob)
    else LastFor(sent[..|sent| - 1], d)
  }

  /** A recipient's row is the newest Welcome sent to it, armed for delivery, or the row it had. */
  lemma {:induction false} DeliveredIsLatest<P>(welcomes: map<Device, Welcome<P>>, sent: seq<WelcomeOut<P>>, d: Device)
    ensures d in Delivered(welcomes, sent) <==> d in welcomes || LastFor(sent, d).Some?
    ensures LastFor(sent, d).Some? ==> Delivered(welcomes, sent)[d] == Welcome(LastFor(sent, d).value, false)
    ensures LastFor(sent, d).None? && d in welcomes ==> Delivered(welcomes, sent)[d] == welcomes[d]
    decreases |sent|
  {
    if sent != [] {
      DeliveredIsLatest(welcomes, sent[..|sent| - 1], d);
    }
  }

  /** The last entry of a list for a recipient. */
  ghost predicate IsLastFor<P>(sent: seq<WelcomeOut<P>>, i: nat, d: Device) {
    i < |sent| && sent[i].recipient == d && forall j :: i < j < |sent| ==> sent[j].recipient != d
  }

  lemma {:induction false} LastForIs<P>(sent: seq<WelcomeOut<P>>, d: Device)
    ensures forall i: nat :: IsLastFor(sent, i, d) ==> LastFor(sent, d) == Some(sent[i].blob)
    ensures (forall i :: 0 <= i < |sent| ==> sent[i].recipient != d) ==> LastFor(sent, d) == None
    decreases |sent|
  {
    if sent != [] {
      var front := sent[..|sent| - 1];
      LastForIs(front, d);
      forall i: nat | IsLastFor(sent, i, d)
        ensures LastFor(sent, d) == Some(sent[i].blob)
      {
        assert i < |front| ==> front[i] == sent[i] && IsLastFor(front, i, d);
      }
    }
  }

  /** A GroupInfo that came with an accepted commit is stored, unless a newer one is already there. */
  ghost predicate InfoStored<P>(before: Option<GroupInfo<P>>, after: Option<GroupInfo<P>>, epoch: int,
                                blob: Option<P>) {
    if blob.None? then after == before
    else if before.None? || before.value.epoch < epoch then after == Some(GroupInfo(epoch, blob.value))
    else after == before && after.value.epoch >= epoch
  }

  /** The last Welcome in the list for each recipient is filed for delivery, and every other row stays. */
  ghost predicate WelcomesFiled<P>(before: map<Device, Welcome<P>>, after: map<Device, Welcome<P>>,
                                   sent: seq<WelcomeOut<P>>) {
    && (forall i: nat :: i < |sent| && IsLastFor(sent, i, sent[i].recipient) ==>
          sent[i].recipient in after && after[sent[i].recipient] == Welcome(sent[i].blob, false))
    && (forall d :: (forall i :: 0 <= i < |sent| ==> sent[i].recipient != d) ==>
          (d in after <==> d in before) && (d in before ==> after[d] == before[d]))
  }

  lemma DeliveredFiles<P>(before: map<Device, Welcome<P>>, sent: seq<WelcomeOut<P>>)
    ensures WelcomesFiled(before, Delivered(before, sent), sent)
  {
    var after := Delivered(before, sent);
    forall i: nat | i < |sent| && IsLastFor(sent, i, sent[i].recipient)
      ensures sent[i].recipient in after && after[sent[i].recipient] == Welcome(sent[i].blob, false)
    {
      LastForIs(sent, sent[i].recipient);
      DeliveredIsLatest(before, sent, sent[i].recipient);
    }
    forall d | forall i :: 0 <= i < |sent| ==> sent[i].recipient != d
      ensures (d in after <==> d in before) && (d in before ==> after[d] == before[d])
    {
      LastForIs(sent, d);
      DeliveredIsLatest(before, sent, d);
    }
  }

  /** What an accepted submission leaves behind: its row, its GroupInfo, its Welcomes, and nothing else new. */
  lemma WonIsExact<P>(sv: Service<P>, b: Submission<P>)
    ensures var t := Won(sv, b);
            && t.rows == sv.rows[b.basedOn := b.commit] && t.since == sv.since
            && InfoStored(sv.groupInfo, t.groupInfo, b.basedOn + 1, b.groupInfo)
            && WelcomesFiled(sv.welcomes, t.welcomes, b.welcomes)
  {
    DeliveredFiles(sv.welcomes, b.welcomes);
  }

  ghost predicate Ascending(out: seq<Row>) {
    forall i, j :: 0 <= i < j < |out| ==> out[i].epoch < out[j].epoch
  }

  /** `out` is exactly the rows from epoch `since` on, oldest first. */
  ghost predicate ListsFrom(rows: map<int, Commit>, since: int, out: seq<Row>) {
    && Ascending(out)
    && (forall i :: 0 <= i < |out| ==>
          out[i].epoch >= since && out[i].epoch in rows && rows[out[i].epoch] == out[i].commit)
    && (forall e: int :: e in rows && e >= since ==> Row(e, rows[e]) in out)
  }

  /** A report on file is the greatest ever filed. */
  function Filed(since: map<Device, int>, d: Device, epoch: int): map<Device, int> {
    since[d := if d in since then Max(since[d], epoch) else epoch]
  }

  // ---------------------------------------------------------------- retention

  const PRUNE_SLACK_EPOCHS := 8
  const PRUNE_MAX_BEHIND_HEAD := 512

  function Max(a: int, b: int): int {
    if a >= b then a else b
  }

  function PruneFloor(minSince: Option<int>, allReported: bool, head: int): (floor: int) {
    var tier1 := if allReported && minSince.Some? then Max(minSince.value - PRUNE_SLACK_EPOCHS, 0) else 0;
    var tier2 := Max(head - PRUNE_MAX_BEHIND_HEAD, 0);
    Max(tier1, tier2)
  }

  /**
   * The floor never passes the slowest report unless the length cap alone demands it, never
   * passes the cap while some device has not reported, and never falls when the head or the
   * slowest report rises.
   */
  lemma PruneFloorSafe(minSince: Option<int>, allReported: bool, head: int, head': int, m': int)
    requires head <= head'
    requires minSince.Some? ==> minSince.value <= m'
    ensures 0 <= PruneFloor(minSince, allReported, head)
    ensures minSince.Some? && 0 <= minSince.value && head - PRUNE_MAX_BEHIND_HEAD <= minSince.value ==>
              PruneFloor(minSince, allReported, head) <= minSince.value
    ensures !allReported || minSince.None? ==>
              PruneFloor(minSince, allReported, head) == Max(head - PRUNE_MAX_BEHIND_HEAD, 0)
    ensures PruneFloor(minSince, allReported, head) <= PruneFloor(minSince, allReported, head')
    ensures minSince.Some? ==> PruneFloor(minSince, allReported, head) <= PruneFloor(Some(m'), allReported, head)
  {
  }

  predicate AllReported(roster: seq<Device>, since: map<Device, int>) {
    forall i :: 0 <= i < |roster| ==> roster[i] in since
  }

  /** The least report over the roster's devices that have reported. */
  function MinReported(roster: seq<Device>, since: map<Device, int>): Option<int>
    decreases |roster|
  {
    if roster == [] then None else
      var rest := MinReported(roster[..|roster| - 1], since);
      var d := roster[|roster| - 1];
      if d !in since then rest
      else if rest.None? then Some(since[d])
      else Some(if rest.value <= since[d] then rest.value else since[d])
  }

  lemma {:induction false} MinReportedIsLeast(roster: seq<Device>, since: map<Device, int>)
    ensures MinReported(roster, since).None? <==> (forall d :: d in roster ==> d !in since)
    ensures MinReported(roster, since).Some? ==>
              && (exists d :: d in roster && d in since && since[d] == MinReported(roster, since).value)
              && (forall d :: d in roster && d in since ==> MinReported(roster, since).value <= since[d])
    decreases |roster|
  {
    if roster != [] {
      var front, last := roster[..|roster| - 1], roster[|roster| - 1];
      MinReportedIsLeast(front, since);
      assert roster == front + [last];
      assert forall d :: d in roster <==> d in front || d == last;
    }
  }

  /** The floor a prune computes; an empty roster leaves only the length cap. */
  function FloorFor(roster: seq<Device>, since: map<Device, int>, head: int): int {
    if roster == [] then PruneFloor(None, false, head)
    else PruneFloor(MinReported(roster, since), AllReported(roster, since), head)
  }

  function DeleteBelow(rows: map<int, Commit>, floor: int): map<int, Commit> {
    if floor <= 0 then rows else map e | e in rows && e >= floor :: rows[e]
  }

  /**
   * A row goes when it is more than 512 below the head, or everyone of a roster has reported more
   * than eight past it.
   */
  ghost predicate Outdated(e: int, roster: seq<Device>, since: map<Device, int>, head: int) {
    || head - e > 512
    || (roster != [] && forall d :: d in roster ==> d in since && since[d] - e > 8)
  }

  /** The floor separates exactly the rows that go from those that stay. */
  lemma FloorIsExact(roster: seq<Device>, since: map<Device, int>, head: int, e: nat)
    ensures e < FloorFor(roster, since, head) <==> Outdated(e, roster, since, head)
  {
    MinReportedIsLeast(roster, since);
    assert AllReported(roster, since) <==> (forall d :: d in roster ==> d in since) by {
      assert forall d :: d in roster ==> exists i :: 0 <= i < |roster| && roster[i] == d;
    }
    if roster != [] {
      assert roster[0] in roster;
    }
  }

  /** A prune deletes exactly the outdated rows. */
  lemma PruneIsExact(rows: map<int, Commit>, roster: seq<Device>, since: map<Device, int>, head: int)
    requires forall e: int :: e in rows ==> 0 <= e
    ensures var kept := DeleteBelow(rows, FloorFor(roster, since, head));
            && (forall e: int :: e in kept <==> e in rows && !Outdated(e, roster, since, head))
            && (forall e: int :: e in kept ==> kept[e] == rows[e])
  {
    forall e: int | e in rows
      ensures e < FloorFor(roster, since, head) <==> Outdated(e, roster, since, head)
    {
      FloorIsExact(roster, since, head, e);
    }
  }

  /** Whether some device of the roster has not reported, or reported fewer than eight past the head. */
  ghost predicate SomeoneHolds(roster: seq<Device>, since: map<Device, int>, head: int) {
    exists d :: d in roster && (d !in since || since[d] < head + PRUNE_SLACK_EPOCHS)
  }

  /**
   * The floor stays below the head exactly when there is no roster or someone holds it back, and
   * so it does when the head it is computed from was read earlier.
   */
  lemma FloorBelowHead(roster: seq<Device>, since: map<Device, int>, seen: int, head: int)
    requires head > 0 && seen <= head
    ensures FloorFor(roster, since, seen) < head <==> roster == [] || SomeoneHolds(roster, since, head)
  {
    MinReportedIsLeast(roster, since);
    if roster != [] && SomeoneHolds(roster, since, head) {
      var d :| d in roster && (d !in since || since[d] < head + PRUNE_SLACK_EPOCHS);
      var i :| 0 <= i < |roster| && roster[i] == d;
    } else if roster != [] {
      assert roster[0] in roster;
    }
  }

  /**
   * A prune leaves the head alone exactly when the log is empty, the roster is empty, or some
   * device of the roster has not reported an epoch eight or more past the head.
   */
  lemma PruneKeepsHead(rows: map<int, Commit>, roster: seq<Device>, since: map<Device, int>)
    requires forall e: int :: e in rows ==> 0 <= e
    ensures var head := HeadEpoch(rows.Keys);
            HeadEpoch(DeleteBelow(rows, FloorFor(roster, since, head)).Keys) == head <==>
            rows == map[] || roster == [] || SomeoneHolds(roster, since, head)
  {
    var head := HeadEpoch(rows.Keys);
    var floor := FloorFor(roster, since, head);
    if rows == map[] {
      assert DeleteBelow(rows, floor) == map[];
    } else {
      assert head - 1 in rows;
      DeleteKeepsHead(rows, floor);
      FloorBelowHead(roster, since, head, head);
    }
  }

  lemma DeleteKeepsHead(rows: map<int, Commit>, floor: int)
    requires rows != map[]
    requires forall e: int :: e in rows ==> 0 <= e
    ensures HeadEpoch(DeleteBelow(rows, floor).Keys) == HeadEpoch(rows.Keys) <==> floor < HeadEpoch(rows.Keys)
  {
    var head := HeadEpoch(rows.Keys);
    var kept := DeleteBelow(rows, floor);
    if rows.Keys == {} {
      assert false;
    }
    assert head - 1 in rows.Keys;
    assert forall e: int :: e in kept ==> e in rows;
    if floor < head {
      assert head - 1 in kept.Keys;
    } else {
      assert kept.Keys == {};
    }
  }

  /** One row, one device that reports nine: the prune empties the log and the head falls to zero. */
  lemma OverstatedReportResetsHead(c: Commit)
    ensures var rows := map[0 := c];
            && HeadEpoch(rows.Keys) == 1
            && HeadEpoch(DeleteBelow(rows, FloorFor(["device"], map["device" := 9], 1)).Keys) == 0
  {
    var rows := map[0 := c];
    assert 0 in rows.Keys;
    assert IsMax(rows.Keys, HeadEpoch(rows.Keys) - 1);
    assert HeadEpoch(rows.Keys) == 1;
    assert MinReported([], map["device" := 9]) == None;
    assert ["device"][..0] == [];
    assert FloorFor(["device"], map["device" := 9], 1) == 1;
    assert DeleteBelow(rows, 1).Keys == {};
  }

  // ---------------------------------------------------------------- the service

  class DeliveryService<P> {
    var rows: map<int, Commit>
    var groupInfo: Option<GroupInfo<P>>
    var welcomes: map<Device, Welcome<P>>
    var since: map<Device, int>

    ghost predicate Valid()
      reads this
    {
      forall e: int :: e in rows ==> 0 <= e
    }

    ghost function Contents(): Service<P>
      reads this
    {
      Service(rows, groupInfo, welcomes, since)
    }

    constructor ()
      ensures Valid() && Contents() == Service(map[], None, map[], map[])
    {
      rows := map[];
      groupInfo := None;
      welcomes := map[];
      since := map[];
    }

    method Head() returns (head: int)
      requires Valid()
      ensures head == HeadEpoch(rows.Keys)
    {
      head := 0;
      var left := rows.Keys;
      while left != {}
        invariant left <= rows.Keys
        invariant 0 <= head
        invariant forall e: int :: e in rows.Keys && e !in left ==> e < head
        invariant head == 0 ==> left == rows.Keys
        invariant head > 0 ==> head - 1 in rows.Keys
        decreases |left|
      {
        Inhabited(left);
        var e: int :| e in left;
        left := left - {e};
        head := Max(head, e + 1);
      }
      assert rows.Keys != {} ==> IsMax(rows.Keys, head - 1);
    }

    /** The rows from `from` to the head, in epoch order. */
    method FetchCommits(from: int) returns (out: seq<Row>)
      requires Valid()
      ensures ListsFrom(rows, from, out)
    {
      var head := Head();
      out := [];
      var e := Max(from, 0);
      while e < head
        invariant Max(from, 0) <= e
        invariant Ascending(out)
        invariant forall i :: 0 <= i < |out| ==>
                    from <= out[i].epoch < e && out[i].epoch in rows && rows[out[i].epoch] == out[i].commit
        invariant forall k: int :: k in rows && from <= k < e ==> Row(k, rows[k]) in out
      {
        if e in rows {
          out := out + [Row(e, rows[e])];
        }
        e := e + 1;
      }
    }

    /** A commit is accepted exactly when it was built on the head; a refused one changes nothing. */
    method SubmitCommit(b: Submission<P>) returns (r: SubmitResponse)
      requires Valid()
      modifies this
      ensures Valid()
      ensures b.basedOn == HeadEpoch(old(rows).Keys) ==>
                && r == Accepted(b.basedOn)
                && b.basedOn !in old(rows)
                && Contents() == Won(old(Contents()), b)
                && HeadEpoch(rows.Keys) == b.basedOn + 1
                && rows == old(rows)[b.basedOn := b.commit] && since == old(since)
                && InfoStored(old(groupInfo), groupInfo, b.basedOn + 1, b.groupInfo)
                && WelcomesFiled(old(welcomes), welcomes, b.welcomes)
      ensures b.basedOn != HeadEpoch(old(rows).Keys) ==>
                && Contents() == old(Contents())
                && r.Rejected? && r.head == HeadEpoch(rows.Keys)
                && ListsFrom(rows, b.basedOn, r.missing)
    {
      var head := Head();
      if b.basedOn != head {
        var missing := FetchCommits(b.basedOn);
        return Rejected(head, missing);
      }
      rows := rows[b.basedOn := b.commit];
      assert b.basedOn in rows.Keys;
      if b.groupInfo.Some? {
        groupInfo := Published(groupInfo, b.basedOn + 1, b.groupInfo.value);
      }
      var filed := welcomes;
      for i := 0 to |b.welcomes|
        invariant filed == Delivered(welcomes, b.welcomes[..i])
        invariant Contents() == Won(old(Contents()), b).(welcomes := old(welcomes))
      {
        assert b.welcomes[..i + 1][..i] == b.welcomes[..i];
        filed := filed[b.welcomes[i].recipient := Welcome(b.welcomes[i].blob, false)];
      }
      assert b.welcomes[..|b.welcomes|] == b.welcomes;
      welcomes := filed;
      WonIsExact(old(Contents()), b);
      r := Accepted(b.basedOn);
    }

    /**
     * What is on file for the device afterwards is the report or what was there, and no less than
     * either; no other device's report changes.
     */
    method RecordCommitSince(device: Device, epoch: int)
      modifies this`since
      ensures device in since && since[device] >= epoch
      ensures device in old(since) ==> since[device] >= old(since)[device]
      ensures since[device] == epoch || (device in old(since) && since[device] == old(since)[device])
      ensures forall d :: d != device ==> (d in since <==> d in old(since))
      ensures forall d :: d != device && d in since ==> since[d] == old(since)[d]
      ensures since == Filed(old(since), device, epoch)
    {
      if device !in since || epoch > since[device] {
        since := since[device := epoch];
      }
    }

    /**
     * The stored epoch afterwards is the greater of the two, and the stored blob is the one that
     * came with it; on equal epochs the first one stays.
     */
    method UpsertGroupInfo(epoch: int, blob: P)
      modifies this`groupInfo
      ensures groupInfo.Some? && groupInfo.value.epoch >= epoch
      ensures old(groupInfo).Some? ==> groupInfo.value.epoch >= old(groupInfo).value.epoch
      ensures groupInfo == Some(GroupInfo(epoch, blob)) || groupInfo == old(groupInfo)
      ensures old(groupInfo).Some? && old(groupInfo).value.epoch >= epoch ==> groupInfo == old(groupInfo)
      ensures groupInfo == Published(old(groupInfo), epoch, blob)
    {
      if groupInfo.None? || epoch > groupInfo.value.epoch {
        groupInfo := Some(GroupInfo(epoch, blob));
      }
    }

    method SlowestReport(roster: seq<Device>) returns (least: Option<int>, all: bool)
      ensures least == MinReported(roster, since)
      ensures all == AllReported(roster, since)
    {
      least, all := None, true;
      for i := 0 to |roster|
        invariant least == MinReported(roster[..i], since)
        invariant all == AllReported(roster[..i], since)
      {
        var d := roster[i];
        assert roster[..i + 1][..i] == roster[..i];
        if d in since {
          var s := since[d];
          least := Some(if least.None? || s < least.value then s else least.value);
        } else {
          all := false;
          assert roster[..i + 1][i] == d;
        }
      }
      assert roster[..|roster|] == roster;
    }

    method PruneCommitLog(roster: seq<Device>) returns (report: PruneReport)
      requires Valid()
      modifies this`rows
      ensures Valid()
      ensures report.floor == FloorFor(roster, since, HeadEpoch(old(rows).Keys))
      ensures rows == DeleteBelow(old(rows), report.floor)
      ensures forall e: int :: e in rows <==>
                e in old(rows) && !Outdated(e, roster, since, HeadEpoch(old(rows).Keys))
      ensures forall e: int :: e in rows ==> rows[e] == old(rows)[e]
      ensures report.deleted == |old(rows)| - |rows|
    {
      var head := Head();
      PruneIsExact(rows, roster, since, head);
      var least: Option<int>, all := None, false;
      if roster != [] {
        least, all := SlowestReport(roster);
      }
      var floor := PruneFloor(least, all, head);
      var kept := DeleteBelow(rows, floor);
      assert |kept| <= |rows| by { FewerRows(kept, rows); }
      report := PruneReport(floor, |rows| - |kept|);
      rows := kept;
    }
  }

  lemma FewerRows(kept: map<int, Commit>, rows: map<int, Commit>)
    requires kept.Keys <= rows.Keys
    ensures |kept| <= |rows|
  {
    KeysBound(kept.Keys, rows.Keys);
  }

  lemma {:induction false} KeysBound(a: set<int>, b: set<int>)
    requires a <= b
    ensures |a| <= |b|
  {
    if a != {} {
      Inhabited(a);
      var x: int :| x in a;
      KeysBound(a - {x}, b - {x});
    }
  }
}
