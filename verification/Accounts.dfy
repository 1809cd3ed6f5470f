/**
 * The account side of the Delivery Service: identity keys and their log, device rows and their
 * certificates, and the endpoints that reset or delete an account.  A transaction works on a
 * copy of the tables and publishes it only when it commits.
 */
module Accounts {
  import opened Common
  import opened SignedPayloads
  import opened GroupHandoff

  type DeviceId = Bytes

  datatype UserRow = UserRow(accountKey: Option<Bytes>, version: int)

  datatype LogRow = LogRow(user: User, key: Bytes, version: int)

  datatype Blob = Blob(salt: Bytes, nonce: Bytes, wrapped: Bytes)

  datatype Recovery = Recovery(version: int, blob: Blob)

  datatype StoredCert = StoredCert(bytes: Bytes, issuedAt: int, version: int)

  datatype DeviceRow = DeviceRow(owner: User, name: Option<string>, cert: Option<StoredCert>,
                                 signaturePub: Option<Bytes>, revoked: bool, lastSeen: int)

  datatype DmSeat = DmSeat(dm: string, user: User)

  datatype KeyPackage = KeyPackage(hash: string, user: User, device: Option<DeviceId>)

  /** A stored message; a sealed one carries a sentinel in place of its sender. */
  datatype Sent = Sent(id: string, sender: User)

  datatype Tables = Tables(
    users: map<User, UserRow>,
    keyLog: seq<LogRow>,
    recovery: map<User, Recovery>,
    devices: map<DeviceId, DeviceRow>,
    groups: set<Group>,
    seats: Seats,
    dms: set<DmSeat>,
    packages: set<KeyPackage>,
    envelopes: set<Sent>)

  // ---------------------------------------------------------------- the key log

  /** How many rows of the log are the user's. */
  function Count(log: seq<LogRow>, u: User): nat {
    if log == [] then 0
    else Count(log[..|log| - 1], u) + (if log[|log| - 1].user == u then 1 else 0)
  }

  /** MAX(identity_version) over the user's rows. */
  function MaxVersion(log: seq<LogRow>, u: User): Option<int> {
    if log == [] then None else
      var rest, last := MaxVersion(log[..|log| - 1], u), log[|log| - 1];
      if last.user != u || (rest.Some? && rest.value >= last.version) then rest else Some(last.version)
  }

  function KeyLogHead(log: seq<LogRow>, u: User): int {
    var m := MaxVersion(log, u);
    if m.None? then 0 else m.value
  }

  predicate HasVersion(log: seq<LogRow>, u: User, version: int) {
    exists i :: 0 <= i < |log| && log[i].user == u && log[i].version == version
  }

  /** The key of the user's newest row. */
  function NewestKey(log: seq<LogRow>, u: User): Option<Bytes> {
    if log == [] then None
    else if log[|log| - 1].user == u then Some(log[|log| - 1].key)
    else NewestKey(log[..|log| - 1], u)
  }

  ghost predicate Logged(log: seq<LogRow>, u: User, key: Bytes) {
    exists i :: 0 <= i < |log| && log[i].user == u && log[i].key == key
  }

  /** The version each user had before the first logged row; not zero only for identities older than the log. */
  type Base = map<User, int>

  function BaseOf(base: Base, u: User): int {
    if u in base then base[u] else 0
  }

  /** Each row's version is one more than its user's base and the number of the user's rows before it. */
  ghost predicate Numbered(log: seq<LogRow>, base: Base) {
    forall i :: 0 <= i < |log| ==> NumberedAt(log, base, i)
  }

  ghost predicate NumberedAt(log: seq<LogRow>, base: Base, i: nat)
    requires i < |log|
  {
    log[i].version == BaseOf(base, log[i].user) + Count(log[..i], log[i].user) + 1
  }

  /** A numbered log in which every user with a base has a row. */
  ghost predicate Based(log: seq<LogRow>, base: Base) {
    Numbered(log, base) && forall u :: u in base ==> Count(log, u) >= 1
  }

  lemma CountAppend(log: seq<LogRow>, row: LogRow, u: User)
    ensures Count(log + [row], u) == Count(log, u) + (if row.user == u then 1 else 0)
    ensures NewestKey(log + [row], u) == if row.user == u then Some(row.key) else NewestKey(log, u)
  {
    assert (log + [row])[..|log|] == log;
  }

  lemma NumberedPrefix(log: seq<LogRow>, base: Base, n: nat)
    requires Numbered(log, base) && n <= |log|
    ensures Numbered(log[..n], base)
  {
    forall i | 0 <= i < n
      ensures NumberedAt(log[..n], base, i)
    {
      assert NumberedAt(log, base, i);
      assert log[..n][..i] == log[..i];
    }
  }

  lemma HasVersionAppend(log: seq<LogRow>, row: LogRow, u: User, v: int)
    ensures HasVersion(log + [row], u, v) <==> HasVersion(log, u, v) || (row.user == u && row.version == v)
  {
    var all := log + [row];
    assert all[|log|] == row;
    if HasVersion(log, u, v) {
      var i :| 0 <= i < |log| && log[i].user == u && log[i].version == v;
      assert all[i] == log[i];
    }
    if HasVersion(all, u, v) {
      var i :| 0 <= i < |all| && all[i].user == u && all[i].version == v;
      assert i < |log| ==> log[i] == all[i];
    }
  }

  lemma {:induction false} MaxIsCount(log: seq<LogRow>, base: Base, u: User)
    requires Numbered(log, base)
    ensures MaxVersion(log, u) == if Count(log, u) == 0 then None else Some(BaseOf(base, u) + Count(log, u))
    ensures NewestKey(log, u).None? <==> Count(log, u) == 0
  {
    if log != [] {
      NumberedPrefix(log, base, |log| - 1);
      MaxIsCount(log[..|log| - 1], base, u);
      assert NumberedAt(log, base, |log| - 1);
    }
  }

  /** The head the database computes is the user's base plus the number of the user's rows. */
  lemma HeadIsCount(log: seq<LogRow>, base: Base, u: User)
    requires Based(log, base)
    ensures KeyLogHead(log, u) == BaseOf(base, u) + Count(log, u)
    ensures NewestKey(log, u).None? <==> Count(log, u) == 0
  {
    MaxIsCount(log, base, u);
  }

  /** The user's versions are exactly the ones from the base up to the head. */
  lemma {:induction false} VersionsExactly(log: seq<LogRow>, base: Base, u: User, v: int)
    requires Numbered(log, base)
    ensures HasVersion(log, u, v) <==> BaseOf(base, u) + 1 <= v <= BaseOf(base, u) + Count(log, u)
  {
    if log != [] {
      var front, last := log[..|log| - 1], log[|log| - 1];
      NumberedPrefix(log, base, |log| - 1);
      VersionsExactly(front, base, u, v);
      assert NumberedAt(log, base, |log| - 1);
      assert front + [last] == log;
      HasVersionAppend(front, last, u, v);
    }
  }

  lemma {:induction false} CountMonotone(log: seq<LogRow>, i: nat, j: nat, u: User)
    requires i <= j <= |log|
    ensures Count(log[..i], u) <= Count(log[..j], u)
    ensures i < j && log[i].user == u ==> Count(log[..i], u) < Count(log[..j], u)
  {
    if i < j {
      assert log[..j][..j - 1] == log[..j - 1];
      CountMonotone(log, i, j - 1, u);
    }
  }

  /** A later row of the same user always has a greater version, so no (user, version) pair repeats. */
  lemma VersionsRise(log: seq<LogRow>, base: Base, i: nat, j: nat)
    requires Numbered(log, base) && i < j < |log| && log[i].user == log[j].user
    ensures log[i].version < log[j].version
  {
    assert NumberedAt(log, base, i) && NumberedAt(log, base, j);
    CountMonotone(log, i, j, log[i].user);
  }

  lemma LoggedAppend(log: seq<LogRow>, row: LogRow, u: User, key: Bytes)
    requires Logged(log, u, key)
    ensures Logged(log + [row], u, key)
  {
    var i :| 0 <= i < |log| && log[i].user == u && log[i].key == key;
    assert (log + [row])[i] == log[i];
  }

  lemma {:induction false} NewestIsLogged(log: seq<LogRow>, u: User)
    requires NewestKey(log, u).Some?
    ensures Logged(log, u, NewestKey(log, u).value)
  {
    if log[|log| - 1].user != u {
      NewestIsLogged(log[..|log| - 1], u);
      LoggedAppend(log[..|log| - 1], log[|log| - 1], u, NewestKey(log, u).value);
      assert log[..|log| - 1] + [log[|log| - 1]] == log;
    }
  }

  // ---------------------------------------------------------------- identity endpoints

  datatype EstablishOutcome = Established | AlreadyEstablished | EstablishFailed

  datatype RotateOutcome = Applied(version: int) | Conflict(head: int) | RotateFailed

  /** The tables once `key` is the user's version `n`: the log, the account row and the recovery row. */
  function Recorded(t: Tables, u: User, key: Bytes, n: int, blob: Blob): Tables {
    t.(users := if u in t.users then t.users[u := UserRow(Some(key), n)] else t.users,
       keyLog := t.keyLog + [LogRow(u, key, n)],
       recovery := t.recovery[u := Recovery(n, blob)])
  }

  datatype Done<R> = Done(answer: R, t: Tables)

  /** First identity: claims an empty account row, then appends version one and stores the recovery blob. */
  function Establish(t: Tables, u: User, key: Bytes, blob: Blob): Done<EstablishOutcome> {
    if u !in t.users || t.users[u].accountKey.Some? then Done(AlreadyEstablished, t)
    else if HasVersion(t.keyLog, u, 1) || u in t.recovery then Done(EstablishFailed, t)
    else Done(Established, Recorded(t, u, key, 1, blob))
  }

  /** Rotation: appends on top of the head the client read, or changes nothing. */
  function Rotate(t: Tables, u: User, basedOn: int, key: Bytes, blob: Blob, foreignKeys: bool): Done<RotateOutcome> {
    var head := KeyLogHead(t.keyLog, u);
    if basedOn != head || HasVersion(t.keyLog, u, basedOn + 1) then Done(Conflict(head), t)
    else if foreignKeys && u !in t.users then Done(RotateFailed, t)
    else Done(Applied(basedOn + 1), Recorded(t, u, key, basedOn + 1, blob))
  }

  /**
   * An identity write and nothing more: one row appended to the log, the account row of a user
   * that has one, the user's recovery row; every other row of every table is as it was.
   */
  ghost predicate OnlyIdentity(t: Tables, t': Tables, u: User, key: Bytes, n: int, blob: Blob) {
    && |t'.keyLog| == |t.keyLog| + 1 && t.keyLog <= t'.keyLog && t'.keyLog[|t.keyLog|] == LogRow(u, key, n)
    && t'.users.Keys == t.users.Keys && (u in t.users ==> t'.users[u] == UserRow(Some(key), n))
    && (forall x :: x in t.users && x != u ==> t'.users[x] == t.users[x])
    && t'.recovery.Keys == t.recovery.Keys + {u} && t'.recovery[u] == Recovery(n, blob)
    && (forall x :: x in t.recovery && x != u ==> t'.recovery[x] == t.recovery[x])
    && SameElsewhere(t, t') && t'.devices == t.devices && t'.packages == t.packages
  }

  /** Groups, seats, direct messages and stored messages are as they were. */
  predicate SameElsewhere(t: Tables, t': Tables) {
    t'.groups == t.groups && t'.seats == t.seats && t'.dms == t.dms && t'.envelopes == t.envelopes
  }

  lemma RecordedFrame(t: Tables, u: User, key: Bytes, n: int, blob: Blob)
    ensures OnlyIdentity(t, Recorded(t, u, key, n, blob), u, key, n, blob)
  {
  }

  /** A first identity and a rotation write the identity and nothing more, or nothing at all. */
  lemma IdentityFrame(t: Tables, u: User, basedOn: int, key: Bytes, blob: Blob, foreignKeys: bool)
    ensures var r := Establish(t, u, key, blob);
            && (r.answer == AlreadyEstablished <==> u !in t.users || t.users[u].accountKey.Some?)
            && (r.answer == EstablishFailed ==> HasVersion(t.keyLog, u, 1) || u in t.recovery)
            && (r.answer == Established ==> !HasVersion(t.keyLog, u, 1) && u !in t.recovery)
            && if r.answer == Established then OnlyIdentity(t, r.t, u, key, 1, blob) else r.t == t
    ensures var r := Rotate(t, u, basedOn, key, blob, foreignKeys);
            if r.answer.Applied? then OnlyIdentity(t, r.t, u, key, r.answer.version, blob) else r.t == t
  {
    RecordedFrame(t, u, key, 1, blob);
    RecordedFrame(t, u, key, basedOn + 1, blob);
  }

  // ---------------------------------------------------------------- device endpoints

  /** A device on file is marked as seen, and named if it has no name, whoever asks. */
  function Register(t: Tables, u: User, d: DeviceId, name: string, now: int, foreignKeys: bool): Done<bool> {
    if d in t.devices then
      var row := t.devices[d];
      var called := if row.name.Some? then row.name else Some(name);
      Done(true, t.(devices := t.devices[d := row.(lastSeen := now, name := called)]))
    else if foreignKeys && u !in t.users then Done(false, t)
    else Done(true, t.(devices := t.devices[d := DeviceRow(u, Some(name), None, None, false, now)]))
  }

  datatype PublishOutcome = Published | IdentityNotEstablished | CertInvalid | DeviceNotRegistered

  /** The second half of publishing a certificate: `key` is the account key read before. */
  function WriteCert(ed: Ed25519, t: Tables, u: User, claim: Claim, cert: Bytes, key: Bytes): Done<PublishOutcome> {
    if !VerifyDeviceCert(ed, key, claim, cert) then Done(CertInvalid, t)
    else if claim.deviceId !in t.devices || t.devices[claim.deviceId].owner != u then Done(DeviceNotRegistered, t)
    else Done(Published, t.(devices := t.devices[claim.deviceId := t.devices[claim.deviceId].(
                cert := Some(StoredCert(cert, claim.issuedAt, claim.version)),
                signaturePub := Some(claim.signaturePub))]))
  }

  datatype Resigned = Resigned(device: DeviceId, cert: StoredCert)

  function ResignOne(devices: map<DeviceId, DeviceRow>, u: User, r: Resigned): map<DeviceId, DeviceRow> {
    if r.device in devices && devices[r.device].owner == u
    then devices[r.device := devices[r.device].(cert := Some(r.cert))]
    else devices
  }

  /** Replaces the certificates of the user's own devices; the new ones are not checked. */
  function Resign(devices: map<DeviceId, DeviceRow>, u: User, certs: seq<Resigned>): map<DeviceId, DeviceRow> {
    if certs == [] then devices
    else ResignOne(Resign(devices, u, certs[..|certs| - 1]), u, certs[|certs| - 1])
  }

  function Revoke(t: Tables, u: User, d: DeviceId): Tables {
    t.(packages := (set p | p in t.packages && !(p.user == u && p.device == Some(d))),
       devices := if d in t.devices && t.devices[d].owner == u then t.devices[d := t.devices[d].(revoked := true)]
                  else t.devices)
  }

  ghost predicate SameIdentity(t: Tables, t': Tables) {
    t'.users == t.users && t'.keyLog == t.keyLog && t'.recovery == t.recovery
  }

  /**
   * The device's key packages go, a row that is the user's gets the mark whatever else is in it,
   * and every other row of every table is as it was.
   */
  ghost predicate OnlyRevoked(t: Tables, t': Tables, u: User, d: DeviceId) {
    && (forall p :: p in t'.packages <==> p in t.packages && !(p.user == u && p.device == Some(d)))
    && t'.devices.Keys == t.devices.Keys
    && (forall x :: x in t.devices && !(x == d && t.devices[x].owner == u) ==> t'.devices[x] == t.devices[x])
    && (d in t.devices && t.devices[d].owner == u ==>
          t'.devices[d].revoked && t'.devices[d].(revoked := t.devices[d].revoked) == t.devices[d])
    && SameIdentity(t, t') && SameElsewhere(t, t')
  }

  /** The user's own row goes, and every other row of every table is as it was. */
  ghost predicate OnlyLoggedOut(t: Tables, t': Tables, u: User, d: DeviceId) {
    && (forall x :: x in t'.devices <==> x in t.devices && !(x == d && t.devices[x].owner == u))
    && (forall x :: x in t'.devices ==> t'.devices[x] == t.devices[x])
    && t'.packages == t.packages && SameIdentity(t, t') && SameElsewhere(t, t')
  }

  function Logout(t: Tables, u: User, d: DeviceId): Tables {
    t.(devices := map x | x in t.devices && !(x == d && t.devices[x].owner == u) :: t.devices[x])
  }

  /** Whether 32 bytes are a point of the curve, so that a verifying key can be made of them. */
  type Curve = Bytes -> bool

  predicate UsableKey(curve: Curve, pub: Bytes) {
    |pub| == 32 && curve(pub)
  }

  /** The key a signed request of the device is checked against. */
  function LookupDeviceKey(curve: Curve, t: Tables, u: User, d: DeviceId): Option<Bytes> {
    if d !in t.devices || t.devices[d].owner != u || t.devices[d].revoked then None
    else if t.devices[d].signaturePub.None? || !UsableKey(curve, t.devices[d].signaturePub.value) then None
    else t.devices[d].signaturePub
  }

  // ---------------------------------------------------------------- reset and delete

  /** The rows a reset removes, given the group tables after the handoff. */
  function Reset(t: Tables, groups: set<Group>, seats: Seats, u: User, keep: Option<DeviceId>): Tables {
    t.(groups := groups,
       seats := WithoutUser(seats, u),
       dms := (set m | m in t.dms && m.user != u),
       packages := (set p | p in t.packages && p.user != u),
       devices := map d | d in t.devices && (t.devices[d].owner != u || keep == Some(d)) :: t.devices[d])
  }

  /** The rows a deletion removes; deleting the user's row takes more with it when foreign keys are enforced. */
  function Delete(t: Tables, groups: set<Group>, seats: Seats, u: User, foreignKeys: bool): Tables {
    var base := t.(groups := groups, seats := WithoutUser(seats, u),
                   envelopes := (set m | m in t.envelopes && m.sender != u),
                   packages := (set p | p in t.packages && p.user != u),
                   users := t.users - {u});
    if !foreignKeys then base
    else base.(dms := (set m | m in t.dms && m.user != u),
               devices := map d | d in t.devices && t.devices[d].owner != u :: t.devices[d],
               recovery := t.recovery - {u})
  }

  ghost predicate GroupsHandedOff(t: Tables, groups: set<Group>, seats: Seats, u: User, foreignKeys: bool) {
    && groups == t.groups - SoleGroups(t.seats, u)
    && forall g :: HandedOff(t.seats, seats, g, u, foreignKeys)
  }

  // ---------------------------------------------------------------- the database

  /** What can fail in a reset or a deletion: the handoff, four more statements and the commit. */
  const STATEMENTS := 6

  class MainDb {
    var t: Tables
    const ed: Ed25519
    const foreignKeys: bool

    constructor (ed: Ed25519, foreignKeys: bool)
      ensures t == Tables(map[], [], map[], map[], {}, map[], {}, {}, {})
      ensures this.ed == ed && this.foreignKeys == foreignKeys
    {
      this.ed, this.foreignKeys := ed, foreignKeys;
      t := Tables(map[], [], map[], map[], {}, map[], {}, {}, {});
    }

    method EstablishIdentity(u: User, key: Bytes, blob: Blob) returns (r: EstablishOutcome)
      modifies this
      ensures Done(r, t) == Establish(old(t), u, key, blob)
      ensures r == AlreadyEstablished <==> u !in old(t).users || old(t).users[u].accountKey.Some?
      ensures r == EstablishFailed ==> HasVersion(old(t).keyLog, u, 1) || u in old(t).recovery
      ensures r == Established ==> !HasVersion(old(t).keyLog, u, 1) && u !in old(t).recovery
      ensures r == Established ==> OnlyIdentity(old(t), t, u, key, 1, blob)
      ensures r != Established ==> t == old(t)
    {
      var tx := t;
      if u !in tx.users || tx.users[u].accountKey.Some? {
        return AlreadyEstablished;
      }
      tx := tx.(users := tx.users[u := UserRow(Some(key), 1)]);
      if HasVersion(tx.keyLog, u, 1) {
        return EstablishFailed;
      }
      tx := tx.(keyLog := tx.keyLog + [LogRow(u, key, 1)]);
      if u in tx.recovery {
        return EstablishFailed;
      }
      tx := tx.(recovery := tx.recovery[u := Recovery(1, blob)]);
      t := tx;
      r := Established;
    }

    method RotateIdentity(u: User, basedOn: int, key: Bytes, blob: Blob) returns (r: RotateOutcome)
      modifies this
      ensures Done(r, t) == Rotate(old(t), u, basedOn, key, blob, foreignKeys)
      ensures r.Applied? ==> OnlyIdentity(old(t), t, u, key, r.version, blob)
      ensures !r.Applied? ==> t == old(t)
    {
      var tx := t;
      var version := basedOn + 1;
      if basedOn != KeyLogHead(tx.keyLog, u) || HasVersion(tx.keyLog, u, version) {
        return Conflict(KeyLogHead(tx.keyLog, u));
      }
      tx := tx.(keyLog := tx.keyLog + [LogRow(u, key, version)]);
      if u in tx.users {
        tx := tx.(users := tx.users[u := UserRow(Some(key), version)]);
      }
      if foreignKeys && u !in tx.users {
        return RotateFailed;
      }
      tx := tx.(recovery := tx.recovery[u := Recovery(version, blob)]);
      t := tx;
      r := Applied(version);
    }

    /** A device already on file is marked as seen now and keeps everything else but a missing name, whoever asks. */
    method RegisterDevice(u: User, d: DeviceId, name: string, now: int) returns (ok: bool)
      modifies this
      ensures Done(ok, t) == Register(old(t), u, d, name, now, foreignKeys)
      ensures ok ==> d in t.devices && t.devices[d].name.Some? && t.devices[d].lastSeen == now
      ensures d in old(t).devices ==>
                var was := old(t).devices[d];
                ok && t.devices[d].(name := was.name, lastSeen := was.lastSeen) == was
      ensures d in old(t).devices && old(t).devices[d].name.Some? ==> t.devices[d].name == old(t).devices[d].name
      ensures d !in old(t).devices && ok ==>
                && t.devices[d].owner == u && !t.devices[d].revoked
                && t.devices[d].cert == None && t.devices[d].signaturePub == None
      ensures t == old(t).(devices := t.devices) && forall x :: x != d ==>
                (x in t.devices <==> x in old(t).devices) && (x in t.devices ==> t.devices[x] == old(t).devices[x])
    {
      var tx := t;
      if d in tx.devices {
        tx := tx.(devices := tx.devices[d := tx.devices[d].(lastSeen := now)]);
        if tx.devices[d].name.None? {
          tx := tx.(devices := tx.devices[d := tx.devices[d].(name := Some(name))]);
        }
      } else {
        if foreignKeys && u !in tx.users {
          return false;
        }
        tx := tx.(devices := tx.devices[d := DeviceRow(u, Some(name), None, None, false, now)]);
      }
      assert tx.devices == Register(t, u, d, name, now, foreignKeys).t.devices;
      t := tx;
      ok := true;
    }

    /**
     * The first half of publishing a certificate: a read that other requests may follow.  In every
     * reachable state the key it finds is the newest one logged for the account.
     */
    method ReadAccountKey(u: User) returns (key: Option<Bytes>)
      ensures u !in t.users ==> key == None
      ensures forall base :: u in t.users && IdentityInv(t, base) ==> key == NewestKey(t.keyLog, u)
    {
      key := if u in t.users then t.users[u].accountKey else None;
      forall base | u in t.users && IdentityInv(t, base)
        ensures key == NewestKey(t.keyLog, u)
      {
        assert IdentityAgrees(t, base, u);
        MaxIsCount(t.keyLog, base, u);
      }
    }

    /** Writes the certificate and its key to the user's own row if it verifies, and otherwise nothing. */
    method WriteDeviceCert(u: User, claim: Claim, cert: Bytes, key: Bytes) returns (r: PublishOutcome)
      modifies this
      ensures Done(r, t) == WriteCert(ed, old(t), u, claim, cert, key)
      ensures r == Published <==> VerifyDeviceCert(ed, key, claim, cert)
                                  && claim.deviceId in old(t).devices && old(t).devices[claim.deviceId].owner == u
      ensures r != Published ==> t == old(t)
      ensures r == Published ==>
                var row, was := t.devices[claim.deviceId], old(t).devices[claim.deviceId];
                && row.signaturePub == Some(claim.signaturePub)
                && row.cert == Some(StoredCert(cert, claim.issuedAt, claim.version))
                && row.(signaturePub := was.signaturePub, cert := was.cert) == was
      ensures t == old(t).(devices := t.devices) && forall x :: x != claim.deviceId ==>
                (x in t.devices <==> x in old(t).devices) && (x in t.devices ==> t.devices[x] == old(t).devices[x])
    {
      if !VerifyDeviceCert(ed, key, claim, cert) {
        return CertInvalid;
      }
      var d := claim.deviceId;
      if d !in t.devices || t.devices[d].owner != u {
        return DeviceNotRegistered;
      }
      t := t.(devices := t.devices[d := t.devices[d].(
                cert := Some(StoredCert(cert, claim.issuedAt, claim.version)),
                signaturePub := Some(claim.signaturePub))]);
      r := Published;
    }

    method ResignDeviceCerts(u: User, certs: seq<Resigned>)
      modifies this
      ensures t == old(t).(devices := Resign(old(t).devices, u, certs))
    {
      var devices := t.devices;
      for i := 0 to |certs|
        invariant t == old(t)
        invariant devices == Resign(t.devices, u, certs[..i])
      {
        assert certs[..i + 1][..i] == certs[..i];
        var d := certs[i].device;
        if d in devices && devices[d].owner == u {
          devices := devices[d := devices[d].(cert := Some(certs[i].cert))];
        }
      }
      assert certs[..|certs|] == certs;
      t := t.(devices := devices);
    }

    method RevokeDevice(u: User, d: DeviceId)
      modifies this
      ensures t == Revoke(old(t), u, d)
      ensures OnlyRevoked(old(t), t, u, d)
    {
      var tx := t.(packages := set p | p in t.packages && !(p.user == u && p.device == Some(d)));
      if d in tx.devices && tx.devices[d].owner == u && !tx.devices[d].revoked {
        tx := tx.(devices := tx.devices[d := tx.devices[d].(revoked := true)]);
      }
      assert tx.devices == Revoke(t, u, d).devices;
      t := tx;
    }

    method LogoutDevice(u: User, d: DeviceId)
      modifies this
      ensures t == Logout(old(t), u, d)
      ensures OnlyLoggedOut(old(t), t, u, d)
    {
      if d in t.devices && t.devices[d].owner == u {
        t := t.(devices := t.devices - {d});
      }
      assert t.devices == Logout(old(t), u, d).devices;
    }

    /** Statement number `fault` fails, the commit included; a number past the last means that none does. */
    method ResetRecover(u: User, keep: Option<DeviceId>, fault: nat)
      returns (ok: bool, ghost groups: set<Group>, ghost seats: Seats)
      modifies this
      ensures ok <==> fault >= STATEMENTS
      ensures !ok ==> t == old(t)
      ensures ok ==> GroupsHandedOff(old(t), groups, seats, u, foreignKeys)
      ensures ok ==> t == Reset(old(t), groups, seats, u, keep)
    {
      ok, groups, seats := false, {}, map[];
      var tx := t;
      if fault == 0 {
        return;
      }
      var g, s := HandoffGroupOwnership(tx.groups, tx.seats, u, foreignKeys);
      groups, seats := g, s;
      tx := tx.(groups := g, seats := s);
      if fault == 1 {
        return;
      }
      tx := tx.(seats := WithoutUser(tx.seats, u));
      if fault == 2 {
        return;
      }
      tx := tx.(dms := set m | m in tx.dms && m.user != u);
      if fault == 3 {
        return;
      }
      tx := tx.(packages := set p | p in tx.packages && p.user != u);
      if fault == 4 {
        return;
      }
      if keep.Some? {
        var k := keep.value;
        tx := tx.(devices := map d | d in tx.devices && !(tx.devices[d].owner == u && d != k) :: tx.devices[d]);
      } else {
        tx := tx.(devices := map d | d in tx.devices && tx.devices[d].owner != u :: tx.devices[d]);
      }
      assert tx.devices == Reset(t, g, s, u, keep).devices;
      if fault == 5 {
        return;
      }
      t, ok := tx, true;
    }

    method DeleteAccount(u: User, fault: nat) returns (ok: bool, ghost groups: set<Group>, ghost seats: Seats)
      modifies this
      ensures ok <==> fault >= STATEMENTS
      ensures !ok ==> t == old(t)
      ensures ok ==> GroupsHandedOff(old(t), groups, seats, u, foreignKeys)
      ensures ok ==> t == Delete(old(t), groups, seats, u, foreignKeys)
    {
      ok, groups, seats := false, {}, map[];
      var tx := t;
      if fault == 0 {
        return;
      }
      var g, s := HandoffGroupOwnership(tx.groups, tx.seats, u, foreignKeys);
      groups, seats := g, s;
      tx := tx.(groups := g, seats := s);
      if fault == 1 {
        return;
      }
      tx := tx.(envelopes := set m | m in tx.envelopes && m.sender != u);
      if fault == 2 {
        return;
      }
      tx := tx.(packages := set p | p in tx.packages && p.user != u);
      if fault == 3 {
        return;
      }
      tx := tx.(seats := WithoutUser(tx.seats, u));
      if fault == 4 {
        return;
      }
      tx := tx.(users := tx.users - {u});
      if foreignKeys {
        tx := tx.(dms := (set m | m in tx.dms && m.user != u), recovery := tx.recovery - {u},
                  devices := map d | d in tx.devices && tx.devices[d].owner != u :: tx.devices[d]);
      }
      if fault == 5 {
        return;
      }
      t, ok := tx, true;
    }
  }

  // ---------------------------------------------------------------- runs

  /** An account key that a publish request has read and not yet used. */
  datatype KeyRead = KeyRead(user: User, key: Bytes)

  datatype World = World(t: Tables, seen: set<KeyRead>)

  datatype Op =
    | CreateUser(u: User)
    | EstablishIdentity(u: User, key: Bytes, blob: Blob)
    | RotateIdentity(u: User, basedOn: int, key: Bytes, blob: Blob)
    | RegisterDevice(u: User, d: DeviceId, name: string, now: int)
    | ReadKey(u: User)
    | WriteDeviceCert(u: User, claim: Claim, cert: Bytes, key: Bytes)
    | ResignCerts(u: User, certs: seq<Resigned>)
    | RevokeDevice(u: User, d: DeviceId)
    | LogoutDevice(u: User, d: DeviceId)
    | ResetAccount(u: User, keep: Option<DeviceId>, groups: set<Group>, seats: Seats)
    | DeleteAccount(u: User, groups: set<Group>, seats: Seats)
    | EditElsewhere(groups: set<Group>, seats: Seats, dms: set<DmSeat>, packages: set<KeyPackage>, envelopes: set<Sent>)

  /** A new account gets an identifier that no table has seen. */
  ghost predicate Fresh(t: Tables, u: User) {
    u !in t.users && u !in t.recovery && Count(t.keyLog, u) == 0
  }

  ghost predicate Enabled(w: World, op: Op, foreignKeys: bool) {
    match op
    case CreateUser(u) => Fresh(w.t, u)
    case WriteDeviceCert(u, _, _, key) => KeyRead(u, key) in w.seen
    case ResetAccount(u, _, groups, seats) => GroupsHandedOff(w.t, groups, seats, u, foreignKeys)
    case DeleteAccount(u, groups, seats) => GroupsHandedOff(w.t, groups, seats, u, foreignKeys)
    case _ => true
  }

  function Next(w: World, op: Op, ed: Ed25519, foreignKeys: bool): World {
    var t := w.t;
    match op
    case CreateUser(u) => w.(t := t.(users := t.users[u := UserRow(None, 1)]))
    case EstablishIdentity(u, key, blob) => w.(t := Establish(t, u, key, blob).t)
    case RotateIdentity(u, basedOn, key, blob) => w.(t := Rotate(t, u, basedOn, key, blob, foreignKeys).t)
    case RegisterDevice(u, d, name, now) => w.(t := Register(t, u, d, name, now, foreignKeys).t)
    case ReadKey(u) =>
      if u !in t.users || t.users[u].accountKey.None? then w
      else w.(seen := w.seen + {KeyRead(u, t.users[u].accountKey.value)})
    case WriteDeviceCert(u, claim, cert, key) => w.(t := WriteCert(ed, t, u, claim, cert, key).t)
    case ResignCerts(u, certs) => w.(t := t.(devices := Resign(t.devices, u, certs)))
    case RevokeDevice(u, d) => w.(t := Revoke(t, u, d))
    case LogoutDevice(u, d) => w.(t := Logout(t, u, d))
    case ResetAccount(u, keep, groups, seats) => w.(t := Reset(t, groups, seats, u, keep))
    case DeleteAccount(u, groups, seats) => w.(t := Delete(t, groups, seats, u, foreignKeys))
    case EditElsewhere(groups, seats, dms, packages, envelopes) =>
      w.(t := t.(groups := groups, seats := seats, dms := dms, packages := packages, envelopes := envelopes))
  }

  ghost predicate Follows(w: World, op: Op, v: World, ed: Ed25519, foreignKeys: bool) {
    Enabled(w, op, foreignKeys) && v == Next(w, op, ed, foreignKeys)
  }

  ghost predicate Run(ws: seq<World>, ops: seq<Op>, ed: Ed25519, foreignKeys: bool) {
    && |ws| == |ops| + 1
    && (forall i :: 0 <= i < |ops| ==> Follows(ws[i], ops[i], ws[i + 1], ed, foreignKeys))
  }

  ghost predicate Empty(w: World) {
    w == World(Tables(map[], [], map[], map[], {}, map[], {}, {}, {}), {})
  }

  /**
   * The start of a run: the log as the migration leaves it, one row for every account that already
   * had an identity, with the key, version and recovery row it had.  Empty tables are the case of
   * no account; devices, groups and messages are whatever they are.
   */
  ghost predicate Migrated(t: Tables, base: Base) {
    && (forall i :: 0 <= i < |t.keyLog| ==> SeededRow(t, base, t.keyLog[i]))
    && (forall i, j :: 0 <= i < j < |t.keyLog| ==> t.keyLog[i].user != t.keyLog[j].user)
    && (forall u :: u in base ==> Count(t.keyLog, u) >= 1)
    && (forall u :: u in t.users && t.users[u].accountKey.Some? ==> Count(t.keyLog, u) >= 1)
    && (forall u :: u in t.users && t.users[u].accountKey.None? ==> u !in t.recovery)
  }

  ghost predicate SeededRow(t: Tables, base: Base, row: LogRow) {
    && row.user in base && row.version == base[row.user] + 1
    && row.user in t.users && t.users[row.user] == UserRow(Some(row.key), row.version)
    && row.user in t.recovery && t.recovery[row.user].version == row.version
  }

  lemma EmptyIsMigrated(w: World)
    requires Empty(w)
    ensures Migrated(w.t, map[])
  {
  }

  // ---------------------------------------------------------------- identity invariant

  /** The three places that record an account's identity agree with its key log. */
  ghost predicate IdentityAgrees(t: Tables, base: Base, u: User)
    requires u in t.users
  {
    var n := Count(t.keyLog, u);
    match t.users[u].accountKey
    case None => n == 0 && u !in t.recovery
    case Some(key) =>
      && n >= 1 && NewestKey(t.keyLog, u) == Some(key)
      && t.users[u].version == BaseOf(base, u) + n
      && u in t.recovery && t.recovery[u].version == BaseOf(base, u) + n
  }

  ghost predicate IdentityInv(t: Tables, base: Base) {
    Based(t.keyLog, base) && forall u :: u in t.users ==> IdentityAgrees(t, base, u)
  }

  lemma {:induction false} CountOfDistinct(log: seq<LogRow>, k: nat, u: User)
    requires k <= |log| && forall i, j :: 0 <= i < j < |log| ==> log[i].user != log[j].user
    ensures Count(log[..k], u) <= 1
    ensures Count(log[..k], u) == 1 ==>
              exists i :: 0 <= i < k && log[i].user == u && NewestKey(log[..k], u) == Some(log[i].key)
    ensures k < |log| && log[k].user == u ==> Count(log[..k], u) == 0
  {
    if k > 0 {
      assert log[..k][..k - 1] == log[..k - 1];
      CountOfDistinct(log, k - 1, u);
    }
  }

  /** The migration establishes the invariant. */
  lemma MigratedAgrees(t: Tables, base: Base)
    requires Migrated(t, base)
    ensures IdentityInv(t, base)
  {
    var log := t.keyLog;
    forall i | 0 <= i < |log|
      ensures NumberedAt(log, base, i)
    {
      CountOfDistinct(log, i, log[i].user);
      assert SeededRow(t, base, log[i]);
    }
    forall u | u in t.users
      ensures IdentityAgrees(t, base, u)
    {
      CountOfDistinct(log, |log|, u);
      assert log[..|log|] == log;
      if Count(log, u) == 1 {
        var i :| 0 <= i < |log| && log[i].user == u && NewestKey(log, u) == Some(log[i].key);
        assert SeededRow(t, base, log[i]);
      }
    }
  }

  lemma NumberedAppend(log: seq<LogRow>, base: Base, u: User, key: Bytes)
    requires Based(log, base)
    ensures Based(log + [LogRow(u, key, BaseOf(base, u) + Count(log, u) + 1)], base)
  {
    var row := LogRow(u, key, BaseOf(base, u) + Count(log, u) + 1);
    var all := log + [row];
    forall i | 0 <= i < |all|
      ensures NumberedAt(all, base, i)
    {
      if i < |log| {
        assert NumberedAt(log, base, i);
        assert all[..i] == log[..i];
      } else {
        assert all[..i] == log;
      }
    }
    forall x | x in base
      ensures Count(all, x) >= 1
    {
      CountAppend(log, row, x);
    }
  }

  lemma RecordedAgrees(t: Tables, base: Base, u: User, key: Bytes, n: int, blob: Blob, x: User)
    requires x in t.users && IdentityAgrees(t, base, x) && n == BaseOf(base, u) + Count(t.keyLog, u) + 1
    ensures IdentityAgrees(Recorded(t, u, key, n, blob), base, x)
  {
    CountAppend(t.keyLog, LogRow(u, key, n), x);
  }

  lemma AppendKeepsIdentity(t: Tables, base: Base, u: User, key: Bytes, n: int, blob: Blob)
    requires IdentityInv(t, base) && n == BaseOf(base, u) + Count(t.keyLog, u) + 1
    ensures IdentityInv(Recorded(t, u, key, n, blob), base)
  {
    var t' := Recorded(t, u, key, n, blob);
    NumberedAppend(t.keyLog, base, u, key);
    forall x | x in t'.users
      ensures IdentityAgrees(t', base, x)
    {
      assert x in t.users;
      RecordedAgrees(t, base, u, key, n, blob, x);
    }
  }

  /** The account's live key, version and recovery blob, and the newest row of its log, are these. */
  ghost predicate HoldsIdentity(t: Tables, u: User, key: Bytes, n: int, blob: Blob) {
    && u in t.users && t.users[u] == UserRow(Some(key), n)
    && u in t.recovery && t.recovery[u] == Recovery(n, blob)
    && NewestKey(t.keyLog, u) == Some(key) && HasVersion(t.keyLog, u, n)
  }

  lemma RecordedHolds(t: Tables, u: User, key: Bytes, n: int, blob: Blob)
    requires u in t.users
    ensures HoldsIdentity(Recorded(t, u, key, n, blob), u, key, n, blob)
  {
    CountAppend(t.keyLog, LogRow(u, key, n), u);
    HasVersionAppend(t.keyLog, LogRow(u, key, n), u, n);
  }

  /** Establishing never meets a constraint error: it is refused, or applied in full. */
  lemma EstablishNeverFails(t: Tables, base: Base, u: User, key: Bytes, blob: Blob)
    requires IdentityInv(t, base)
    ensures var r := Establish(t, u, key, blob);
            && (r.answer == Established <==> u in t.users && t.users[u].accountKey.None?)
            && r.answer != EstablishFailed && IdentityInv(r.t, base)
            && (r.answer == AlreadyEstablished ==> r.t == t)
            && (r.answer == Established ==> HoldsIdentity(r.t, u, key, 1, blob))
  {
    if u in t.users && t.users[u].accountKey.None? {
      assert IdentityAgrees(t, base, u);
      VersionsExactly(t.keyLog, base, u, 1);
      AppendKeepsIdentity(t, base, u, key, 1, blob);
      RecordedHolds(t, u, key, 1, blob);
    }
  }

  /** The answer to a rotation: won exactly when it was based on the true head, otherwise told the head. */
  lemma RotateAnswer(t: Tables, base: Base, u: User, basedOn: int, key: Bytes, blob: Blob, foreignKeys: bool,
                     n: int, r: Done<RotateOutcome>)
    requires Based(t.keyLog, base) && n == BaseOf(base, u) + Count(t.keyLog, u)
    requires r == Rotate(t, u, basedOn, key, blob, foreignKeys)
    ensures if basedOn != n then r == Done(Conflict(n), t)
            else if foreignKeys && u !in t.users then r == Done(RotateFailed, t)
            else r == Done(Applied(n + 1), Recorded(t, u, key, n + 1, blob))
  {
    HeadIsCount(t.keyLog, base, u);
    VersionsExactly(t.keyLog, base, u, basedOn + 1);
  }

  lemma AppliedHolds(t: Tables, base: Base, u: User, key: Bytes, n: int, blob: Blob, t': Tables)
    requires IdentityInv(t, base) && n == BaseOf(base, u) + Count(t.keyLog, u) + 1 && t' == Recorded(t, u, key, n, blob)
    ensures IdentityInv(t', base) && (u in t.users ==> HoldsIdentity(t', u, key, n, blob))
  {
    AppendKeepsIdentity(t, base, u, key, n, blob);
    if u in t.users {
      RecordedHolds(t, u, key, n, blob);
    }
  }

  /** A rotation wins exactly when it was based on the true head; a loser changes nothing and learns the head. */
  lemma RotateIsExact(t: Tables, base: Base, u: User, basedOn: int, key: Bytes, blob: Blob, foreignKeys: bool)
    requires IdentityInv(t, base)
    ensures var r, n := Rotate(t, u, basedOn, key, blob, foreignKeys), BaseOf(base, u) + Count(t.keyLog, u);
            && (r.answer == Applied(n + 1) <==> basedOn == n && (u in t.users || !foreignKeys))
            && (r.answer.Applied? ==> r.answer.version == n + 1)
            && (r.answer == Conflict(n) <==> basedOn != n)
            && (r.answer.Conflict? ==> r.answer.head == n)
            && (!r.answer.Applied? ==> r.t == t)
            && (r.answer.Applied? && u in t.users ==> HoldsIdentity(r.t, u, key, n + 1, blob))
            && IdentityInv(r.t, base)
  {
    var r, n := Rotate(t, u, basedOn, key, blob, foreignKeys), BaseOf(base, u) + Count(t.keyLog, u);
    RotateAnswer(t, base, u, basedOn, key, blob, foreignKeys, n, r);
    if r.answer.Applied? {
      AppliedHolds(t, base, u, key, n + 1, blob, r.t);
    }
  }

  /** The other steps leave the log, and an account's row and recovery row or the whole account, alone. */
  lemma OtherStepAgrees(w: World, base: Base, op: Op, ed: Ed25519, foreignKeys: bool, x: User)
    requires IdentityInv(w.t, base) && Enabled(w, op, foreignKeys) && !op.EstablishIdentity? && !op.RotateIdentity?
    requires x in Next(w, op, ed, foreignKeys).t.users
    ensures Next(w, op, ed, foreignKeys).t.keyLog == w.t.keyLog
    ensures IdentityAgrees(Next(w, op, ed, foreignKeys).t, base, x)
  {
    assert x in w.t.users ==> IdentityAgrees(w.t, base, x);
  }

  lemma StepKeepsIdentity(w: World, base: Base, op: Op, ed: Ed25519, foreignKeys: bool)
    requires IdentityInv(w.t, base) && Enabled(w, op, foreignKeys)
    ensures IdentityInv(Next(w, op, ed, foreignKeys).t, base)
  {
    match op
    case EstablishIdentity(u, key, blob) => EstablishNeverFails(w.t, base, u, key, blob);
    case RotateIdentity(u, basedOn, key, blob) => RotateIsExact(w.t, base, u, basedOn, key, blob, foreignKeys);
    case _ =>
      forall x | x in Next(w, op, ed, foreignKeys).t.users
        ensures IdentityAgrees(Next(w, op, ed, foreignKeys).t, base, x)
      {
        OtherStepAgrees(w, base, op, ed, foreignKeys, x);
      }
  }

  lemma {:induction false} RunKeepsIdentity(ws: seq<World>, ops: seq<Op>, base: Base, ed: Ed25519, foreignKeys: bool,
                                            n: nat)
    requires Run(ws, ops, ed, foreignKeys) && Migrated(ws[0].t, base) && n < |ws|
    ensures IdentityInv(ws[n].t, base)
  {
    if n == 0 {
      MigratedAgrees(ws[0].t, base);
    } else {
      RunKeepsIdentity(ws, ops, base, ed, foreignKeys, n - 1);
      assert Follows(ws[n - 1], ops[n - 1], ws[n - 1 + 1], ed, foreignKeys);
      StepKeepsIdentity(ws[n - 1], base, ops[n - 1], ed, foreignKeys);
    }
  }

  // ---------------------------------------------------------------- rotation races

  /** Whether the step appends to the user's key log: a won rotation, or a first identity. */
  predicate Wins(w: World, op: Op, u: User, foreignKeys: bool) {
    match op
    case RotateIdentity(x, basedOn, key, blob) =>
      x == u && Rotate(w.t, x, basedOn, key, blob, foreignKeys).answer.Applied?
    case EstablishIdentity(x, key, blob) => x == u && Establish(w.t, x, key, blob).answer == Established
    case _ => false
  }

  /** The version a winning step was built on. */
  function BasedOn(op: Op): int {
    if op.RotateIdentity? then op.basedOn else 0
  }

  function CountWins(ws: seq<World>, ops: seq<Op>, u: User, foreignKeys: bool, from: nat, to: nat): nat
    requires from <= to <= |ops| < |ws|
  {
    if from == to then 0 else
      var last := if Wins(ws[to - 1], ops[to - 1], u, foreignKeys) then 1 else 0;
      CountWins(ws, ops, u, foreignKeys, from, to - 1) + last
  }

  lemma EstablishGrowsLog(t: Tables, base: Base, x: User, key: Bytes, blob: Blob, u: User)
    requires IdentityInv(t, base)
    ensures var r := Establish(t, x, key, blob);
            && t.keyLog <= r.t.keyLog
            && Count(r.t.keyLog, u) == Count(t.keyLog, u) + (if x == u && r.answer == Established then 1 else 0)
            && (r.answer == Established ==> BaseOf(base, x) + Count(t.keyLog, x) == 0)
  {
    CountAppend(t.keyLog, LogRow(x, key, 1), u);
    assert x in t.users ==> IdentityAgrees(t, base, x);
  }

  lemma RotateGrowsLog(t: Tables, base: Base, x: User, basedOn: int, key: Bytes, blob: Blob, foreignKeys: bool, u: User)
    requires IdentityInv(t, base)
    ensures var r := Rotate(t, x, basedOn, key, blob, foreignKeys);
            && t.keyLog <= r.t.keyLog
            && Count(r.t.keyLog, u) == Count(t.keyLog, u) + (if x == u && r.answer.Applied? then 1 else 0)
            && (r.answer.Applied? ==> BaseOf(base, x) + Count(t.keyLog, x) == basedOn)
  {
    HeadIsCount(t.keyLog, base, x);
    CountAppend(t.keyLog, LogRow(x, key, basedOn + 1), u);
  }

  lemma StepGrowsLog(w: World, base: Base, op: Op, u: User, ed: Ed25519, foreignKeys: bool)
    requires IdentityInv(w.t, base)
    ensures w.t.keyLog <= Next(w, op, ed, foreignKeys).t.keyLog
    ensures Count(Next(w, op, ed, foreignKeys).t.keyLog, u) ==
            Count(w.t.keyLog, u) + if Wins(w, op, u, foreignKeys) then 1 else 0
    ensures Wins(w, op, u, foreignKeys) ==> BasedOn(op) == BaseOf(base, u) + Count(w.t.keyLog, u)
  {
    match op
    case EstablishIdentity(x, key, blob) => EstablishGrowsLog(w.t, base, x, key, blob, u);
    case RotateIdentity(x, basedOn, key, blob) => RotateGrowsLog(w.t, base, x, basedOn, key, blob, foreignKeys, u);
    case _ =>
  }

  /** The user's log grows by exactly the number of wins, whoever else is racing. */
  lemma {:induction false} LogGrowthIsWins(ws: seq<World>, ops: seq<Op>, base: Base, u: User, ed: Ed25519,
                                           foreignKeys: bool, i: nat, j: nat)
    requires Run(ws, ops, ed, foreignKeys) && Migrated(ws[0].t, base) && i <= j < |ws|
    ensures ws[i].t.keyLog <= ws[j].t.keyLog
    ensures Count(ws[j].t.keyLog, u) == Count(ws[i].t.keyLog, u) + CountWins(ws, ops, u, foreignKeys, i, j)
  {
    if i < j {
      LogGrowthIsWins(ws, ops, base, u, ed, foreignKeys, i, j - 1);
      RunKeepsIdentity(ws, ops, base, ed, foreignKeys, j - 1);
      assert Follows(ws[j - 1], ops[j - 1], ws[j - 1 + 1], ed, foreignKeys);
      StepGrowsLog(ws[j - 1], base, ops[j - 1], u, ed, foreignKeys);
    }
  }

  /** Two wins for one user are never built on the same version, so each version is won once. */
  lemma OneWinPerVersion(ws: seq<World>, ops: seq<Op>, base: Base, u: User, ed: Ed25519, foreignKeys: bool, i: nat,
                         j: nat)
    requires Run(ws, ops, ed, foreignKeys) && Migrated(ws[0].t, base) && i < j < |ops|
    requires Wins(ws[i], ops[i], u, foreignKeys) && Wins(ws[j], ops[j], u, foreignKeys)
    ensures BasedOn(ops[i]) < BasedOn(ops[j])
  {
    RunKeepsIdentity(ws, ops, base, ed, foreignKeys, i);
    RunKeepsIdentity(ws, ops, base, ed, foreignKeys, j);
    assert Follows(ws[i], ops[i], ws[i + 1], ed, foreignKeys) && Follows(ws[j], ops[j], ws[j + 1], ed, foreignKeys);
    StepGrowsLog(ws[i], base, ops[i], u, ed, foreignKeys);
    StepGrowsLog(ws[j], base, ops[j], u, ed, foreignKeys);
    LogGrowthIsWins(ws, ops, base, u, ed, foreignKeys, i + 1, j);
  }

  /** A client that re-reads the head wins if nothing was won for its user in between. */
  lemma RereadWins(ws: seq<World>, ops: seq<Op>, base: Base, ed: Ed25519, foreignKeys: bool, i: nat, j: nat)
    requires Run(ws, ops, ed, foreignKeys) && Migrated(ws[0].t, base) && i <= j < |ops|
    requires ops[j].RotateIdentity? && ops[j].u in ws[j].t.users
    requires ops[j].basedOn == KeyLogHead(ws[i].t.keyLog, ops[j].u)
    ensures Wins(ws[j], ops[j], ops[j].u, foreignKeys) <==> CountWins(ws, ops, ops[j].u, foreignKeys, i, j) == 0
  {
    var u := ops[j].u;
    RunKeepsIdentity(ws, ops, base, ed, foreignKeys, i);
    RunKeepsIdentity(ws, ops, base, ed, foreignKeys, j);
    HeadIsCount(ws[i].t.keyLog, base, u);
    LogGrowthIsWins(ws, ops, base, u, ed, foreignKeys, i, j);
    RotateIsExact(ws[j].t, base, u, ops[j].basedOn, ops[j].key, ops[j].blob, foreignKeys);
  }
}
