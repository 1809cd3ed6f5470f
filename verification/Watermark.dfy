/** The delivery watermark: how far a device's exclusive `sent_at` cursor may advance after a catch-up pass. */
module Watermark {
  import opened Common

  datatype Kind = Message | Edit | Delete | Other

  /** An envelope; send times are points on a line. */
  datatype Envelope = Envelope(id: string, sentAt: int, kind: Kind, epoch: Option<nat>)

  predicate Handled(e: Envelope, fired: Option<nat>) {
    match e.kind
    case Delete => true
    case Other => true
    case _ => e.epoch.None? || (fired.Some? && e.epoch.value <= fired.value)
  }

  ghost predicate Sorted(envs: seq<Envelope>) {
    forall i, j :: 0 <= i < j < |envs| ==> envs[i].sentAt <= envs[j].sentAt
  }

  ghost predicate StrictlySorted(envs: seq<Envelope>) {
    forall i, j :: 0 <= i < j < |envs| ==> envs[i].sentAt < envs[j].sentAt
  }

  /** The index of the first envelope that must be retried. */
  function FirstUnhandled(envs: seq<Envelope>, fired: Option<nat>): (k: nat)
    ensures k <= |envs|
    ensures k < |envs| ==> !Handled(envs[k], fired)
    ensures forall i :: 0 <= i < k ==> Handled(envs[i], fired)
  {
    if envs == [] || !Handled(envs[0], fired) then 0 else 1 + FirstUnhandled(envs[1..], fired)
  }

  lemma {:induction false} FirstUnhandledIs(envs: seq<Envelope>, fired: Option<nat>, k: nat)
    requires k <= |envs| && forall i :: 0 <= i < k ==> Handled(envs[i], fired)
    requires k < |envs| ==> !Handled(envs[k], fired)
    ensures FirstUnhandled(envs, fired) == k
  {
    if k > 0 {
      FirstUnhandledIs(envs[1..], fired, k - 1);
    }
  }

  /** The send time the cursor must stay strictly below. */
  function StopAt(envs: seq<Envelope>, fired: Option<nat>): Option<int> {
    var k := FirstUnhandled(envs, fired);
    if k < |envs| then Some(envs[k].sentAt) else None
  }

  predicate Below(sentAt: int, stop: Option<int>) {
    stop.None? || sentAt < stop.value
  }

  /** How many envelopes the cursor walks over. */
  function Walked(envs: seq<Envelope>, stop: Option<int>, from: nat): (n: nat)
    requires from <= |envs|
    ensures from <= n <= |envs|
    ensures forall i :: from <= i < n ==> Below(envs[i].sentAt, stop)
    ensures n < |envs| ==> !Below(envs[n].sentAt, stop)
    decreases |envs| - from
  {
    if from == |envs| || !Below(envs[from].sentAt, stop) then from else Walked(envs, stop, from + 1)
  }

  function NextWatermark(envs: seq<Envelope>, fired: Option<nat>): Option<int> {
    var n := Walked(envs, StopAt(envs, fired), 0);
    if n == 0 then None else Some(envs[n - 1].sentAt)
  }

  method FindStop(envs: seq<Envelope>, fired: Option<nat>) returns (stop: Option<int>)
    ensures stop == StopAt(envs, fired)
  {
    for k := 0 to |envs|
      invariant forall i :: 0 <= i < k ==> Handled(envs[i], fired)
    {
      if !Handled(envs[k], fired) {
        FirstUnhandledIs(envs, fired, k);
        return Some(envs[k].sentAt);
      }
    }
    FirstUnhandledIs(envs, fired, |envs|);
    stop := None;
  }

  /** The walk itself: adopt each send time until one is not below the stop. */
  method ComputeWatermark(envs: seq<Envelope>, fired: Option<nat>) returns (candidate: Option<int>)
    ensures candidate == NextWatermark(envs, fired)
  {
    var stop := FindStop(envs, fired);
    candidate := None;
    var i := 0;
    while i < |envs|
      invariant 0 <= i <= |envs|
      invariant Walked(envs, stop, 0) == Walked(envs, stop, i)
      invariant candidate == if i == 0 then None else Some(envs[i - 1].sentAt)
    {
      if stop.Some? && envs[i].sentAt >= stop.value {
        break;
      }
      candidate := Some(envs[i].sentAt);
      i := i + 1;
    }
  }

  // ---------------------------------------------------------------- one pass

  /** No cursor is before every cursor. */
  predicate NotAfter(a: Option<int>, b: Option<int>) {
    a.None? || (b.Some? && a.value <= b.value)
  }

  /** The cursor is the greatest send time strictly below the first one that must be retried. */
  lemma WatermarkIsGreatestBelow(envs: seq<Envelope>, fired: Option<nat>)
    requires Sorted(envs)
    ensures var w, stop := NextWatermark(envs, fired), StopAt(envs, fired);
            && (w.Some? ==> Below(w.value, stop) && exists i :: 0 <= i < |envs| && envs[i].sentAt == w.value)
            && (forall i :: 0 <= i < |envs| ==> (Below(envs[i].sentAt, stop) <==> NotAfter(Some(envs[i].sentAt), w)))
  {
    var stop := StopAt(envs, fired);
    var n := Walked(envs, stop, 0);
    forall i | 0 <= i < |envs|
      ensures Below(envs[i].sentAt, stop) <==> NotAfter(Some(envs[i].sentAt), NextWatermark(envs, fired))
    {
      if i < n {
        assert i < n - 1 ==> envs[i].sentAt <= envs[n - 1].sentAt;
      } else {
        assert n < i ==> envs[n].sentAt <= envs[i].sentAt;
        assert n > 0 ==> Below(envs[n - 1].sentAt, stop);
      }
    }
  }

  /** Every envelope at or below the cursor was handled, so one that was not stays strictly above it, ties included. */
  lemma UnhandledStaysAbove(envs: seq<Envelope>, fired: Option<nat>, e: Envelope)
    requires Sorted(envs) && e in envs && !Handled(e, fired)
    ensures var w := NextWatermark(envs, fired); w.None? || w.value < e.sentAt
  {
    var i :| 0 <= i < |envs| && envs[i] == e;
    var k := FirstUnhandled(envs, fired);
    assert k < i ==> envs[k].sentAt <= envs[i].sentAt;
    WatermarkIsGreatestBelow(envs, fired);
  }

  /** When everything is handled the cursor reaches the newest envelope. */
  lemma AllHandledReachesEnd(envs: seq<Envelope>, fired: Option<nat>)
    requires forall i :: 0 <= i < |envs| ==> Handled(envs[i], fired)
    ensures NextWatermark(envs, fired) == if envs == [] then None else Some(envs[|envs| - 1].sentAt)
  {
    FirstUnhandledIs(envs, fired, |envs|);
  }

  /** Whether reading it takes the keys of its epoch. */
  predicate Gated(e: Envelope) {
    (e.kind.Message? || e.kind.Edit?) && e.epoch.Some?
  }

  /**
   * The cursor stops below the first message or edit whose epoch was not reached, and for nothing
   * else: deletes, unknown kinds and messages that carry no epoch never hold it back, even when
   * there was no group to replay.
   */
  lemma StopsExactlyAt(envs: seq<Envelope>, fired: Option<nat>, k: nat)
    requires k < |envs|
    ensures FirstUnhandled(envs, fired) == k <==>
            && Gated(envs[k]) && (fired.None? || envs[k].epoch.value > fired.value)
            && forall i :: 0 <= i < k && Gated(envs[i]) ==> fired.Some? && envs[i].epoch.value <= fired.value
  {
    if Gated(envs[k]) && (fired.None? || envs[k].epoch.value > fired.value)
       && forall i :: 0 <= i < k && Gated(envs[i]) ==> fired.Some? && envs[i].epoch.value <= fired.value {
      FirstUnhandledIs(envs, fired, k);
    }
  }

  predicate NoMore(a: Option<nat>, b: Option<nat>) {
    a.None? || (b.Some? && a.value <= b.value)
  }

  lemma LaterStop(envs: seq<Envelope>, fired: Option<nat>, later: Option<nat>, sentAt: int)
    requires Sorted(envs) && NoMore(fired, later) && Below(sentAt, StopAt(envs, fired))
    ensures Below(sentAt, StopAt(envs, later))
  {
    var k, k' := FirstUnhandled(envs, fired), FirstUnhandled(envs, later);
    assert forall i :: 0 <= i < k ==> Handled(envs[i], later);
    assert k < k' < |envs| ==> envs[k].sentAt <= envs[k'].sentAt;
  }

  /** A pass that reaches a later epoch never moves the cursor less far. */
  lemma MonotoneInEpoch(envs: seq<Envelope>, fired: Option<nat>, later: Option<nat>)
    requires Sorted(envs) && NoMore(fired, later)
    ensures NotAfter(NextWatermark(envs, fired), NextWatermark(envs, later))
  {
    WatermarkIsGreatestBelow(envs, fired);
    WatermarkIsGreatestBelow(envs, later);
    var w := NextWatermark(envs, fired);
    if w.Some? {
      var i :| 0 <= i < |envs| && envs[i].sentAt == w.value;
      LaterStop(envs, fired, later, envs[i].sentAt);
    }
  }

  lemma FirstUnhandledOfPrefix(envs: seq<Envelope>, fired: Option<nat>, cut: nat)
    requires cut <= |envs|
    ensures var k := FirstUnhandled(envs, fired);
            FirstUnhandled(envs[..cut], fired) == if k < cut then k else cut
  {
    var k := FirstUnhandled(envs, fired);
    FirstUnhandledIs(envs[..cut], fired, if k < cut then k else cut);
  }

  /** The prefix's last envelope shares its send time with the first one of the whole list to retry. */
  predicate TieAtCut(envs: seq<Envelope>, fired: Option<nat>, cut: nat)
    requires cut <= |envs|
  {
    var k := FirstUnhandled(envs, fired);
    0 < cut <= k < |envs| && envs[k].sentAt == envs[cut - 1].sentAt
  }

  /** The first one to retry is in the prefix: both stop at the same send time. */
  lemma ExtensionKeepsStop(envs: seq<Envelope>, fired: Option<nat>, cut: nat)
    requires Sorted(envs) && FirstUnhandled(envs, fired) < cut <= |envs|
    ensures NotAfter(NextWatermark(envs[..cut], fired), NextWatermark(envs, fired))
  {
    var front := envs[..cut];
    FirstUnhandledOfPrefix(envs, fired, cut);
    WatermarkIsGreatestBelow(front, fired);
    WatermarkIsGreatestBelow(envs, fired);
    var w := NextWatermark(front, fired);
    if w.Some? {
      var i :| 0 <= i < cut && front[i].sentAt == w.value;
      assert Below(envs[i].sentAt, StopAt(envs, fired));
    }
  }

  /** The whole prefix is handled: its cursor is its last send time, which the longer list must keep below its stop. */
  lemma ExtensionOfHandled(envs: seq<Envelope>, fired: Option<nat>, cut: nat)
    requires Sorted(envs) && 0 < cut <= FirstUnhandled(envs, fired)
    ensures NextWatermark(envs[..cut], fired) == Some(envs[cut - 1].sentAt)
    ensures NotAfter(Some(envs[cut - 1].sentAt), NextWatermark(envs, fired)) <==> !TieAtCut(envs, fired, cut)
  {
    var k := FirstUnhandled(envs, fired);
    AllHandledReachesEnd(envs[..cut], fired);
    WatermarkIsGreatestBelow(envs, fired);
    assert k < |envs| ==> envs[cut - 1].sentAt <= envs[k].sentAt;
  }

  /**
   * Seeing more envelopes never moves the cursor back, exactly unless the newcomers tie the last
   * one seen with one that must be retried.
   */
  lemma MonotoneUnderExtension(envs: seq<Envelope>, fired: Option<nat>, cut: nat)
    requires Sorted(envs) && cut <= |envs|
    ensures NotAfter(NextWatermark(envs[..cut], fired), NextWatermark(envs, fired)) <==> !TieAtCut(envs, fired, cut)
  {
    if FirstUnhandled(envs, fired) < cut {
      ExtensionKeepsStop(envs, fired, cut);
    } else if cut > 0 {
      ExtensionOfHandled(envs, fired, cut);
    }
  }

  /** With distinct send times there are no ties. */
  lemma DistinctTimesMonotone(envs: seq<Envelope>, fired: Option<nat>, cut: nat)
    requires StrictlySorted(envs) && cut <= |envs|
    ensures NotAfter(NextWatermark(envs[..cut], fired), NextWatermark(envs, fired))
  {
    MonotoneUnderExtension(envs, fired, cut);
    var k := FirstUnhandled(envs, fired);
    assert 0 < cut <= k < |envs| ==> envs[cut - 1].sentAt < envs[k].sentAt;
  }

  /** A tie does move it back: two messages at one send time, of which only the first is handled. */
  lemma TieMovesBack()
    ensures var a, b := Envelope("a", 1, Message, Some(0)), Envelope("b", 1, Message, Some(1));
            NextWatermark([a], Some(0)) == Some(1) && NextWatermark([a, b], Some(0)) == None
  {
    var a, b := Envelope("a", 1, Message, Some(0)), Envelope("b", 1, Message, Some(1));
    FirstUnhandledIs([a], Some(0), 1);
    FirstUnhandledIs([a, b], Some(0), 1);
  }
}
