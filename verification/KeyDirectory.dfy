/**
 * The account-key directory: the key log published as its own tenant of the transparency log.
 * The builder checks each row against the rows before it; the checks never fail on a log the
 * account endpoints wrote, and any two published heads are provably consistent.
 */
module KeyDirectory {
  import opened Common
  import opened Merkle
  import opened TransparencyLog
  import Accounts

  type LogRow = Accounts.LogRow
  type Bytes = seq<Byte>

  /** The text "account-key". */
  const TENANT: Bytes := [97, 99, 99, 111, 117, 110, 116, 45, 107, 101, 121]

  /** The leaf encoding and its partial inverse. */
  datatype Codec = Codec(encode: (LogRow, nat) -> Bytes, decode: Bytes -> Option<LogRow>)

  ghost predicate Faithful(codec: Codec) {
    forall row, seqNo :: codec.decode(codec.encode(row, seqNo)) == Some(row)
  }

  /** Whether a parsed earlier row is no obstacle to the candidate. */
  predicate Precedes(prev: Option<LogRow>, cand: LogRow) {
    prev.Some? && (prev.value.user == cand.user ==> prev.value.version < cand.version)
  }

  predicate Admits(codec: Codec, existing: seq<Entry>, candidate: Entry) {
    var cand := codec.decode(candidate.data);
    cand.Some? && forall i :: 0 <= i < |existing| ==> Precedes(codec.decode(existing[i].data), cand.value)
  }

  /** The tenant's check: refuses an unreadable leaf, a repeated version and a version that goes back. */
  method Check(codec: Codec, existing: seq<Entry>, candidate: Entry) returns (ok: bool)
    ensures ok == Admits(codec, existing, candidate)
    ensures var cand := codec.decode(candidate.data);
            ok <==>
            && cand.Some? && (forall e :: e in existing ==> codec.decode(e.data).Some?)
            && (forall e :: e in existing && codec.decode(e.data).value.user == cand.value.user ==>
                  codec.decode(e.data).value.version < cand.value.version)
  {
    var cand := codec.decode(candidate.data);
    if cand.None? {
      return false;
    }
    for i := 0 to |existing|
      invariant forall k :: 0 <= k < i ==> Precedes(codec.decode(existing[k].data), cand.value)
    {
      var prev := codec.decode(existing[i].data);
      if prev.None? {
        return false;
      }
      if prev.value.user == cand.value.user {
        if prev.value.version == cand.value.version {
          return false;
        }
        if prev.value.version > cand.value.version {
          return false;
        }
      }
    }
    ok := true;
  }

  function Leaf(codec: Codec, row: LogRow, seqNo: nat): Entry {
    Entry(TENANT, codec.encode(row, seqNo))
  }

  /** The log's rows as entries, in sequence order. */
  function Leaves(codec: Codec, log: seq<LogRow>): (es: seq<Entry>)
    ensures |es| == |log| && forall i :: 0 <= i < |log| ==> es[i] == Leaf(codec, log[i], i)
  {
    seq(|log|, i requires 0 <= i < |log| => Leaf(codec, log[i], i))
  }

  function Rules(codec: Codec): map<Bytes, Invariant> {
    map[TENANT := (existing, candidate) => Admits(codec, existing, candidate)]
  }

  lemma {:induction false} OneTenant(es: seq<Entry>)
    requires forall i :: 0 <= i < |es| ==> es[i].tenant == TENANT
    ensures OfTenant(es, TENANT) == es
  {
    if es != [] {
      OneTenant(es[..|es| - 1]);
    }
  }

  /** Along the log every user's versions strictly rise. */
  ghost predicate Rises(log: seq<LogRow>) {
    forall i, j :: 0 <= i < j < |log| && log[i].user == log[j].user ==> log[i].version < log[j].version
  }

  lemma RowAdmitted(codec: Codec, log: seq<LogRow>, es: seq<Entry>, i: nat)
    requires Faithful(codec) && Rises(log) && es == Leaves(codec, log) && i < |log|
    ensures Admits(codec, es[..i], es[i])
  {
    assert codec.decode(es[i].data) == Some(log[i]);
    forall k | 0 <= k < i
      ensures Precedes(codec.decode(es[..i][k].data), log[i])
    {
      assert codec.decode(es[k].data) == Some(log[k]);
    }
  }

  /** The builder admits every row of a log exactly when every user's versions strictly rise. */
  lemma BuilderAdmitsExactly(codec: Codec, log: seq<LogRow>)
    requires Faithful(codec)
    ensures Admitted(Rules(codec), Leaves(codec, log)) <==> Rises(log)
  {
    var es := Leaves(codec, log);
    forall i | 0 <= i < |es|
      ensures codec.decode(es[i].data) == Some(log[i]) && OfTenant(es[..i], TENANT) == es[..i]
    {
      OneTenant(es[..i]);
    }
    if Rises(log) {
      forall i | 0 <= i < |es|
        ensures Admits(codec, OfTenant(es[..i], TENANT), es[i])
      {
        RowAdmitted(codec, log, es, i);
      }
    } else {
      var i, j :| 0 <= i < j < |log| && log[i].user == log[j].user && log[i].version >= log[j].version;
      assert !Precedes(codec.decode(es[..j][i].data), log[j]);
      assert !Admits(codec, es[..j], es[j]);
      assert !Rules(codec)[TENANT](OfTenant(es[..j], es[j].tenant), es[j]);
    }
  }

  /** The builder never refuses a row of a log whose versions are numbered as the endpoints number them. */
  lemma BuilderNeverRefuses(codec: Codec, log: seq<LogRow>, base: Accounts.Base)
    requires Faithful(codec) && Accounts.Numbered(log, base)
    ensures Admitted(Rules(codec), Leaves(codec, log))
  {
    forall i, j | 0 <= i < j < |log| && log[i].user == log[j].user
      ensures log[i].version < log[j].version
    {
      Accounts.VersionsRise(log, base, i, j);
    }
    BuilderAdmitsExactly(codec, log);
  }

  function DirectoryHead(sha: Sha, codec: Codec, log: seq<LogRow>): Head {
    Head(|log|, LogRoot(sha, LeafHashes(sha, Leaves(codec, log))))
  }

  /** The heads of a log and of a longer log that begins with it are joined by the longer one's own proof. */
  lemma HeadsJoin(sha: Sha, codec: Codec, past: seq<LogRow>, now: seq<LogRow>)
    requires past != [] && past <= now
    ensures HeadsConsistent(sha, DirectoryHead(sha, codec, past), DirectoryHead(sha, codec, now),
                            ConsistencyProof(|past|, |now|,
                                ConsistencyPath(NodeHash(sha), |past|, LeafHashes(sha, Leaves(codec, now)))))
  {
    var leaves := LeafHashes(sha, Leaves(codec, now));
    assert LeafHashes(sha, Leaves(codec, past)) == leaves[..|past|];
    ConsistencyComplete(NodeHash(sha), |past|, leaves);
  }

  /**
   * Over every run of the account endpoints the published directory admits every row, and the
   * heads published at any two moments are joined by a consistency proof that verifies.
   */
  lemma DirectoryIsConsistent(ws: seq<Accounts.World>, ops: seq<Accounts.Op>, base: Accounts.Base,
                              ed: Accounts.SignedPayloads.Ed25519, foreignKeys: bool, i: nat, j: nat, sha: Sha,
                              codec: Codec)
    requires Accounts.Run(ws, ops, ed, foreignKeys) && Accounts.Migrated(ws[0].t, base) && i <= j < |ws|
    requires Faithful(codec) && ws[i].t.keyLog != []
    ensures Admitted(Rules(codec), Leaves(codec, ws[j].t.keyLog))
    ensures ws[i].t.keyLog <= ws[j].t.keyLog
    ensures var past, now := ws[i].t.keyLog, ws[j].t.keyLog;
            HeadsConsistent(sha, DirectoryHead(sha, codec, past), DirectoryHead(sha, codec, now),
                            ConsistencyProof(|past|, |now|,
                                ConsistencyPath(NodeHash(sha), |past|, LeafHashes(sha, Leaves(codec, now)))))
  {
    var past, now := ws[i].t.keyLog, ws[j].t.keyLog;
    Accounts.RunKeepsIdentity(ws, ops, base, ed, foreignKeys, j);
    BuilderNeverRefuses(codec, now, base);
    Accounts.LogGrowthIsWins(ws, ops, base, "", ed, foreignKeys, i, j);
    HeadsJoin(sha, codec, past, now);
  }
}
