/**
 * What device rows can be trusted for, over every run of the account endpoints: who owns a row,
 * that revocation is final, that a stored signing key was vouched for by a logged account key,
 * and what reset and deletion leave behind.
 */
module DeviceTrust {
  import opened Common
  import opened SignedPayloads
  import opened GroupHandoff
  import opened Accounts

  // ---------------------------------------------------------------- re-signing

  /** The last certificate in the list for a device. */
  function LastCert(certs: seq<Resigned>, d: DeviceId): Option<StoredCert> {
    if certs == [] then None
    else if certs[|certs| - 1].device == d then Some(certs[|certs| - 1].cert)
    else LastCert(certs[..|certs| - 1], d)
  }

  /** Re-signing touches the certificate column of the user's own rows and nothing else. */
  lemma {:induction false} ResignRow(devices: map<DeviceId, DeviceRow>, u: User, certs: seq<Resigned>, d: DeviceId)
    ensures d in Resign(devices, u, certs) <==> d in devices
    ensures d in devices ==>
              Resign(devices, u, certs)[d] ==
              if devices[d].owner == u && LastCert(certs, d).Some? then devices[d].(cert := LastCert(certs, d))
              else devices[d]
  {
    if certs != [] {
      ResignRow(devices, u, certs[..|certs| - 1], d);
    }
  }

  // ---------------------------------------------------------------- ownership and revocation

  lemma StepKeepsOwner(w: World, op: Op, ed: Ed25519, foreignKeys: bool, d: DeviceId)
    requires d in w.t.devices && d in Next(w, op, ed, foreignKeys).t.devices
    ensures Next(w, op, ed, foreignKeys).t.devices[d].owner == w.t.devices[d].owner
    ensures w.t.devices[d].revoked ==> Next(w, op, ed, foreignKeys).t.devices[d].revoked
  {
    if op.ResignCerts? {
      ResignRow(w.t.devices, op.u, op.certs, d);
    }
  }

  /**
   * As long as a device's row is not removed its owner stays the same, and once it is revoked no
   * request of the device passes the signature check, whoever it claims to be.
   */
  lemma {:induction false} RevocationIsFinal(ws: seq<World>, ops: seq<Op>, ed: Ed25519, foreignKeys: bool, curve: Curve,
                                             d: DeviceId, i: nat, j: nat)
    requires Run(ws, ops, ed, foreignKeys) && i <= j < |ws|
    requires forall k :: i <= k <= j ==> d in ws[k].t.devices
    ensures ws[j].t.devices[d].owner == ws[i].t.devices[d].owner
    ensures ws[i].t.devices[d].revoked ==>
              ws[j].t.devices[d].revoked && forall u :: LookupDeviceKey(curve, ws[j].t, u, d) == None
  {
    if i < j {
      RevocationIsFinal(ws, ops, ed, foreignKeys, curve, d, i, j - 1);
      assert Follows(ws[j - 1], ops[j - 1], ws[j - 1 + 1], ed, foreignKeys);
      StepKeepsOwner(ws[j - 1], ops[j - 1], ed, foreignKeys, d);
    }
  }

  /** Only its owner's logout, reset or account deletion removes a device row. */
  lemma RemovedByOwner(w: World, op: Op, ed: Ed25519, foreignKeys: bool, d: DeviceId)
    requires d in w.t.devices && d !in Next(w, op, ed, foreignKeys).t.devices
    ensures op.LogoutDevice? || op.ResetAccount? || op.DeleteAccount?
    ensures op.u == w.t.devices[d].owner
    ensures op.LogoutDevice? ==> op.d == d
    ensures op.ResetAccount? ==> op.keep != Some(d)
  {
    if op.ResignCerts? {
      ResignRow(w.t.devices, op.u, op.certs, d);
    }
  }

  /** Registering adds a row without keys, or leaves an existing row to its owner with its keys and revocation. */
  lemma RegisterTakesEffect(curve: Curve, t: Tables, u: User, d: DeviceId, name: string, now: int,
                            foreignKeys: bool)
    ensures var r := Register(t, u, d, name, now, foreignKeys);
            && (r.answer <==> d in t.devices || u in t.users || !foreignKeys)
            && (r.answer ==> d in r.t.devices && r.t.devices[d].name.Some?)
            && (d !in t.devices && r.answer ==> r.t.devices[d].owner == u && LookupDeviceKey(curve, r.t, u, d) == None)
            && (d in t.devices ==> forall x :: LookupDeviceKey(curve, r.t, x, d) == LookupDeviceKey(curve, t, x, d))
            && (forall x, y :: y != d ==> LookupDeviceKey(curve, r.t, x, y) == LookupDeviceKey(curve, t, x, y))
  {
  }

  /** A published key is what requests are checked against from then on, unless the device is revoked. */
  lemma PublishTakesEffect(curve: Curve, ed: Ed25519, t: Tables, u: User, claim: Claim, cert: Bytes, key: Bytes)
    ensures var r, d := WriteCert(ed, t, u, claim, cert, key), claim.deviceId;
            && (r.answer == Published <==>
                  VerifyDeviceCert(ed, key, claim, cert) && d in t.devices && t.devices[d].owner == u)
            && (r.answer == Published ==>
                  LookupDeviceKey(curve, r.t, u, d) ==
                  if t.devices[d].revoked || |claim.signaturePub| != 32 || !curve(claim.signaturePub) then None
                  else Some(claim.signaturePub))
            && (r.answer != Published ==> r.t == t)
            && (forall x, y :: y != d ==> LookupDeviceKey(curve, r.t, x, y) == LookupDeviceKey(curve, t, x, y))
  {
  }

  /**
   * A request is checked against a key exactly if that is the live row's own key and a verifying
   * key can be made of it.
   */
  lemma LookupIsExact(curve: Curve, t: Tables, u: User, d: DeviceId, key: Bytes)
    ensures LookupDeviceKey(curve, t, u, d) == Some(key) <==>
            && d in t.devices && t.devices[d].owner == u && !t.devices[d].revoked
            && t.devices[d].signaturePub == Some(key) && |key| == 32 && curve(key)
  {
  }

  /** A first identity and a rotation change what no request is checked against. */
  lemma IdentityKeepsLookups(curve: Curve, t: Tables, t': Tables, u: User, key: Bytes, n: int, blob: Blob)
    requires OnlyIdentity(t, t', u, key, n, blob)
    ensures forall x, d :: LookupDeviceKey(curve, t', x, d) == LookupDeviceKey(curve, t, x, d)
  {
  }

  /** Revoking and logging out are what they say and no more. */
  lemma DeviceFrames(t: Tables, u: User, d: DeviceId)
    ensures OnlyRevoked(t, Revoke(t, u, d), u, d) && OnlyLoggedOut(t, Logout(t, u, d), u, d)
  {
  }

  /**
   * Over every run, once a user has revoked a device of theirs, keys or no keys, no lookup for it
   * passes as long as its row stays, whatever is registered or published in between.
   */
  lemma RevokedStaysOut(ws: seq<World>, ops: seq<Op>, ed: Ed25519, foreignKeys: bool, curve: Curve, i: nat, j: nat)
    requires Run(ws, ops, ed, foreignKeys) && i < j < |ws| && ops[i].RevokeDevice?
    requires var d := ops[i].d;
             && d in ws[i].t.devices && ws[i].t.devices[d].owner == ops[i].u
             && forall k :: i < k <= j ==> d in ws[k].t.devices
    ensures forall x :: LookupDeviceKey(curve, ws[j].t, x, ops[i].d) == None
  {
    assert Follows(ws[i], ops[i], ws[i + 1], ed, foreignKeys);
    DeviceFrames(ws[i].t, ops[i].u, ops[i].d);
    RevocationIsFinal(ws, ops, ed, foreignKeys, curve, ops[i].d, i + 1, j);
  }

  /** Revoking one's own device takes its key and its key packages away, and nobody else's. */
  lemma RevokeTakesEffect(curve: Curve, t: Tables, u: User, d: DeviceId)
    ensures var r := Revoke(t, u, d);
            && LookupDeviceKey(curve, r, u, d) == None
            && (forall p :: p in r.packages <==> p in t.packages && !(p.user == u && p.device == Some(d)))
            && (forall x, y :: !(x == u && y == d) ==>
                  LookupDeviceKey(curve, r, x, y) == LookupDeviceKey(curve, t, x, y))
  {
  }

  /** Logging out removes the row, so that registering again starts clean even after a revocation. */
  lemma LogoutTakesEffect(t: Tables, u: User, d: DeviceId, name: string, now: int)
    requires d in t.devices && t.devices[d].owner == u && u in t.users
    ensures var out := Logout(t, u, d);
            && d !in out.devices && (forall y :: y != d ==> (y in out.devices <==> y in t.devices))
            && (forall y :: y in out.devices ==> out.devices[y] == t.devices[y])
            && Register(out, u, d, name, now, true).t.devices[d] == DeviceRow(u, Some(name), None, None, false, now)
  {
  }

  // ---------------------------------------------------------------- requests in runs

  lemma {:induction false} NewestIffCounted(log: seq<LogRow>, u: User)
    ensures NewestKey(log, u).None? <==> Count(log, u) == 0
  {
    if log != [] {
      NewestIffCounted(log[..|log| - 1], u);
    }
  }

  /** An account can be created exactly for an identifier that no identity table has seen, and then has no identity. */
  lemma CreateIsExact(w: World, u: User, ed: Ed25519, foreignKeys: bool)
    ensures Accounts.Enabled(w, CreateUser(u), foreignKeys) <==>
            u !in w.t.users && u !in w.t.recovery && NewestKey(w.t.keyLog, u) == None
    ensures var v := Next(w, CreateUser(u), ed, foreignKeys);
            && u in v.t.users && v.t.users[u].accountKey == None && v.seen == w.seen
            && v.t == w.t.(users := v.t.users) && forall x :: x != u ==>
                 (x in v.t.users <==> x in w.t.users) && (x in w.t.users ==> v.t.users[x] == w.t.users[x])
  {
    NewestIffCounted(w.t.keyLog, u);
  }

  /** Apart from creation, a publish that has not read a key, and a handoff, every request is taken at any time. */
  lemma RequestsAreTaken(w: World, op: Op, foreignKeys: bool)
    requires !op.CreateUser? && !op.WriteDeviceCert? && !op.ResetAccount? && !op.DeleteAccount?
    ensures Accounts.Enabled(w, op, foreignKeys)
  {
  }

  /** Logging out, revoking and everything done elsewhere change in a run what they change by themselves. */
  lemma DeviceRequestsTakeEffect(w: World, u: User, d: DeviceId, ed: Ed25519, foreignKeys: bool)
    ensures OnlyLoggedOut(w.t, Next(w, LogoutDevice(u, d), ed, foreignKeys).t, u, d)
    ensures OnlyRevoked(w.t, Next(w, RevokeDevice(u, d), ed, foreignKeys).t, u, d)
  {
    DeviceFrames(w.t, u, d);
  }

  lemma EditsTakeEffect(w: World, groups: set<Group>, seats: Seats, dms: set<DmSeat>, packages: set<KeyPackage>,
                        envelopes: set<Sent>, ed: Ed25519, foreignKeys: bool)
    ensures var t' := Next(w, EditElsewhere(groups, seats, dms, packages, envelopes), ed, foreignKeys).t;
            && t'.groups == groups && t'.seats == seats && t'.dms == dms && t'.packages == packages
            && t'.envelopes == envelopes && SameIdentity(w.t, t') && t'.devices == w.t.devices
  {
  }

  /** So do reset and deletion: afterwards the user has no seat, and one device at most or no account. */
  lemma LeavingTakesEffect(w: World, u: User, keep: Option<DeviceId>, groups: set<Group>, seats: Seats, ed: Ed25519,
                           foreignKeys: bool)
    ensures var t' := Next(w, ResetAccount(u, keep, groups, seats), ed, foreignKeys).t;
            && (forall x :: x in t'.devices && t'.devices[x].owner == u ==> keep == Some(x))
            && (forall s :: s in t'.seats ==> s.user != u) && t'.groups == groups
    ensures var t' := Next(w, DeleteAccount(u, groups, seats), ed, foreignKeys).t;
            u !in t'.users && (forall s :: s in t'.seats ==> s.user != u) && t'.groups == groups
  {
  }

  /**
   * From nothing to an accepted device: an account is created, gets its first identity, registers
   * a device, and publishes a certificate that verifies under that identity.  From then on
   * requests of the device are checked against the published key.
   */
  lemma EnrolledIsAccepted(w: World, u: User, key: Bytes, blob: Blob, claim: Claim, cert: Bytes, name: string, now: int,
                           ed: Ed25519, foreignKeys: bool, curve: Curve)
    returns (w1: World, w2: World, w3: World, w4: World, w5: World)
    requires u !in w.t.users && u !in w.t.recovery && NewestKey(w.t.keyLog, u) == None
    requires !HasVersion(w.t.keyLog, u, 1) && claim.deviceId !in w.t.devices
    requires VerifyDeviceCert(ed, key, claim, cert) && |claim.signaturePub| == 32 && curve(claim.signaturePub)
    ensures Follows(w, CreateUser(u), w1, ed, foreignKeys)
    ensures Follows(w1, EstablishIdentity(u, key, blob), w2, ed, foreignKeys)
    ensures Follows(w2, RegisterDevice(u, claim.deviceId, name, now), w3, ed, foreignKeys)
    ensures Follows(w3, ReadKey(u), w4, ed, foreignKeys)
    ensures Follows(w4, WriteDeviceCert(u, claim, cert, key), w5, ed, foreignKeys)
    ensures LookupDeviceKey(curve, w5.t, u, claim.deviceId) == Some(claim.signaturePub)
  {
    NewestIffCounted(w.t.keyLog, u);
    w1 := Next(w, CreateUser(u), ed, foreignKeys);
    w2 := Next(w1, EstablishIdentity(u, key, blob), ed, foreignKeys);
    w3 := Next(w2, RegisterDevice(u, claim.deviceId, name, now), ed, foreignKeys);
    w4 := Next(w3, ReadKey(u), ed, foreignKeys);
    w5 := Next(w4, WriteDeviceCert(u, claim, cert, key), ed, foreignKeys);
  }

  // ---------------------------------------------------------------- vouching

  ghost predicate VouchedBy(ed: Ed25519, log: seq<LogRow>, u: User, key: Bytes, claim: Claim, cert: Bytes) {
    Logged(log, u, key) && VerifyDeviceCert(ed, key, claim, cert)
  }

  /** Some key the account has ever logged signed a certificate for this device and signing key. */
  ghost predicate Vouched(ed: Ed25519, log: seq<LogRow>, u: User, d: DeviceId, pub: Bytes) {
    exists key, version, issuedAt, cert :: VouchedBy(ed, log, u, key, Claim(d, pub, version, issuedAt), cert)
  }

  ghost predicate RowVouched(ed: Ed25519, log: seq<LogRow>, d: DeviceId, row: DeviceRow) {
    row.signaturePub.Some? ==> Vouched(ed, log, row.owner, d, row.signaturePub.value)
  }

  ghost predicate TrustInv(ed: Ed25519, w: World) {
    && (forall d :: d in w.t.devices ==> RowVouched(ed, w.t.keyLog, d, w.t.devices[d]))
    && (forall r :: r in w.seen ==> Logged(w.t.keyLog, r.user, r.key))
  }

  lemma {:induction false} LoggedPrefix(log: seq<LogRow>, more: seq<LogRow>, u: User, key: Bytes)
    requires log <= more && Logged(log, u, key)
    ensures Logged(more, u, key)
  {
    var i :| 0 <= i < |log| && log[i].user == u && log[i].key == key;
    assert more[i] == log[i];
  }

  lemma RowVouchedPrefix(ed: Ed25519, log: seq<LogRow>, more: seq<LogRow>, d: DeviceId, row: DeviceRow)
    requires log <= more && RowVouched(ed, log, d, row)
    ensures RowVouched(ed, more, d, row)
  {
    if row.signaturePub.Some? {
      var pub := row.signaturePub.value;
      var key, version, issuedAt, cert :| VouchedBy(ed, log, row.owner, key, Claim(d, pub, version, issuedAt), cert);
      LoggedPrefix(log, more, row.owner, key);
      assert VouchedBy(ed, more, row.owner, key, Claim(d, pub, version, issuedAt), cert);
    }
  }

  /** Apart from re-signing and publishing, a step leaves a row's certificate and key alone or adds a row without. */
  lemma RowAfter(w: World, op: Op, ed: Ed25519, foreignKeys: bool, d: DeviceId)
    requires !op.ResignCerts? && !op.WriteDeviceCert? && d in Next(w, op, ed, foreignKeys).t.devices
    ensures var row := Next(w, op, ed, foreignKeys).t.devices[d];
            if d !in w.t.devices then row.signaturePub == None
            else row.owner == w.t.devices[d].owner && row.cert == w.t.devices[d].cert
                 && row.signaturePub == w.t.devices[d].signaturePub
  {
  }

  lemma PublishedIsVouched(w: World, op: Op, ed: Ed25519, foreignKeys: bool)
    requires TrustInv(ed, w) && op.WriteDeviceCert? && Accounts.Enabled(w, op, foreignKeys)
    ensures var r, c := WriteCert(ed, w.t, op.u, op.claim, op.cert, op.key), op.claim;
            r.answer == Published ==>
              VouchedBy(ed, w.t.keyLog, op.u, op.key, Claim(c.deviceId, c.signaturePub, c.version, c.issuedAt), op.cert)
  {
    assert KeyRead(op.u, op.key) in w.seen;
  }

  lemma StepKeepsRow(w: World, op: Op, ed: Ed25519, foreignKeys: bool, d: DeviceId)
    requires TrustInv(ed, w) && Accounts.Enabled(w, op, foreignKeys)
    requires d in Next(w, op, ed, foreignKeys).t.devices
    ensures RowVouched(ed, w.t.keyLog, d, Next(w, op, ed, foreignKeys).t.devices[d])
  {
    if d in w.t.devices {
      assert RowVouched(ed, w.t.keyLog, d, w.t.devices[d]);
    }
    if op.ResignCerts? {
      ResignRow(w.t.devices, op.u, op.certs, d);
    } else if op.WriteDeviceCert? {
      PublishedIsVouched(w, op, ed, foreignKeys);
    } else {
      RowAfter(w, op, ed, foreignKeys, d);
    }
  }

  lemma StepKeepsTrust(w: World, base: Base, op: Op, ed: Ed25519, foreignKeys: bool)
    requires IdentityInv(w.t, base) && TrustInv(ed, w) && Accounts.Enabled(w, op, foreignKeys)
    ensures TrustInv(ed, Next(w, op, ed, foreignKeys))
  {
    var v := Next(w, op, ed, foreignKeys);
    assert w.t.keyLog <= v.t.keyLog;
    forall d | d in v.t.devices
      ensures RowVouched(ed, v.t.keyLog, d, v.t.devices[d])
    {
      StepKeepsRow(w, op, ed, foreignKeys, d);
      RowVouchedPrefix(ed, w.t.keyLog, v.t.keyLog, d, v.t.devices[d]);
    }
    forall r | r in v.seen
      ensures Logged(v.t.keyLog, r.user, r.key)
    {
      if r in w.seen {
        LoggedPrefix(w.t.keyLog, v.t.keyLog, r.user, r.key);
      } else {
        assert IdentityAgrees(w.t, base, r.user);
        NewestIsLogged(w.t.keyLog, r.user);
      }
    }
  }

  lemma {:induction false} RunKeepsTrust(ws: seq<World>, ops: seq<Op>, base: Base, ed: Ed25519, foreignKeys: bool,
                                         n: nat)
    requires Run(ws, ops, ed, foreignKeys) && Migrated(ws[0].t, base) && TrustInv(ed, ws[0]) && n < |ws|
    ensures TrustInv(ed, ws[n])
  {
    if n > 0 {
      RunKeepsTrust(ws, ops, base, ed, foreignKeys, n - 1);
      RunKeepsIdentity(ws, ops, base, ed, foreignKeys, n - 1);
      assert Follows(ws[n - 1], ops[n - 1], ws[n - 1 + 1], ed, foreignKeys);
      StepKeepsTrust(ws[n - 1], base, ops[n - 1], ed, foreignKeys);
    }
  }

  /**
   * In every run from vouched-for rows, a device whose signed requests are accepted for a user has
   * a signing key that was certified under a key in that user's log, however rotations interleave
   * with publishing.
   */
  lemma AuthenticatedIsVouched(ws: seq<World>, ops: seq<Op>, base: Base, ed: Ed25519, foreignKeys: bool, curve: Curve,
                               n: nat, u: User, d: DeviceId)
    requires Run(ws, ops, ed, foreignKeys) && Migrated(ws[0].t, base) && TrustInv(ed, ws[0]) && n < |ws|
    requires LookupDeviceKey(curve, ws[n].t, u, d).Some?
    ensures Vouched(ed, ws[n].t.keyLog, u, d, LookupDeviceKey(curve, ws[n].t, u, d).value)
  {
    RunKeepsTrust(ws, ops, base, ed, foreignKeys, n);
    assert RowVouched(ed, ws[n].t.keyLog, d, ws[n].t.devices[d]);
  }

  // ---------------------------------------------------------------- certificates on file

  ghost predicate CertVerifies(ed: Ed25519, log: seq<LogRow>, u: User, d: DeviceId, pub: Bytes, c: StoredCert) {
    && 0 <= c.version < 0x1_0000_0000 && 0 <= c.issuedAt < 0x1_0000_0000_0000_0000
    && exists key :: VouchedBy(ed, log, u, key, Claim(d, pub, c.version, c.issuedAt), c.bytes)
  }

  /** A row with a signing key stores a certificate for it that verifies under a logged key. */
  ghost predicate CertOnFile(ed: Ed25519, log: seq<LogRow>, d: DeviceId, row: DeviceRow) {
    row.signaturePub.Some? ==>
      row.cert.Some? && CertVerifies(ed, log, row.owner, d, row.signaturePub.value, row.cert.value)
  }

  ghost predicate CertInv(ed: Ed25519, t: Tables) {
    forall d :: d in t.devices ==> CertOnFile(ed, t.keyLog, d, t.devices[d])
  }

  /** A re-signing whose last certificate for some live signing key of the user does not verify. */
  ghost predicate ResignsBadly(ed: Ed25519, w: World, op: Op) {
    op.ResignCerts? && exists d :: d in w.t.devices && BadCertFor(ed, w, op, d)
  }

  ghost predicate BadCertFor(ed: Ed25519, w: World, op: Op, d: DeviceId)
    requires op.ResignCerts? && d in w.t.devices
  {
    var row := w.t.devices[d];
    && row.owner == op.u && row.signaturePub.Some? && LastCert(op.certs, d).Some?
    && !CertVerifies(ed, w.t.keyLog, op.u, d, row.signaturePub.value, LastCert(op.certs, d).value)
  }

  lemma CertOnFilePrefix(ed: Ed25519, log: seq<LogRow>, more: seq<LogRow>, d: DeviceId, row: DeviceRow)
    requires log <= more && CertOnFile(ed, log, d, row)
    ensures CertOnFile(ed, more, d, row)
  {
    if row.signaturePub.Some? {
      var pub, c := row.signaturePub.value, row.cert.value;
      var key :| VouchedBy(ed, log, row.owner, key, Claim(d, pub, c.version, c.issuedAt), c.bytes);
      LoggedPrefix(log, more, row.owner, key);
      assert VouchedBy(ed, more, row.owner, key, Claim(d, pub, c.version, c.issuedAt), c.bytes);
    }
  }

  lemma RowCertAfter(w: World, op: Op, ed: Ed25519, foreignKeys: bool, d: DeviceId)
    requires TrustInv(ed, w) && CertInv(ed, w.t) && Accounts.Enabled(w, op, foreignKeys) && !op.ResignCerts?
    requires d in Next(w, op, ed, foreignKeys).t.devices
    ensures CertOnFile(ed, w.t.keyLog, d, Next(w, op, ed, foreignKeys).t.devices[d])
  {
    if d in w.t.devices {
      assert CertOnFile(ed, w.t.keyLog, d, w.t.devices[d]);
    }
    if op.WriteDeviceCert? {
      PublishedIsVouched(w, op, ed, foreignKeys);
    } else {
      RowAfter(w, op, ed, foreignKeys, d);
    }
  }

  lemma ResignKeepsCerts(w: World, op: Op, ed: Ed25519, foreignKeys: bool)
    requires CertInv(ed, w.t) && op.ResignCerts?
    ensures CertInv(ed, Next(w, op, ed, foreignKeys).t) <==> !ResignsBadly(ed, w, op)
  {
    var v := Next(w, op, ed, foreignKeys);
    if ResignsBadly(ed, w, op) {
      var d :| d in w.t.devices && BadCertFor(ed, w, op, d);
      ResignRow(w.t.devices, op.u, op.certs, d);
      assert !CertOnFile(ed, v.t.keyLog, d, v.t.devices[d]);
    } else {
      forall d | d in v.t.devices
        ensures CertOnFile(ed, v.t.keyLog, d, v.t.devices[d])
      {
        ResignRow(w.t.devices, op.u, op.certs, d);
        assert CertOnFile(ed, w.t.keyLog, d, w.t.devices[d]);
        assert !BadCertFor(ed, w, op, d);
      }
    }
  }

  /**
   * Every step keeps a verifying certificate beside every stored signing key, exactly unless it
   * re-signs one of the user's devices with a certificate that does not verify.
   */
  lemma StepKeepsCerts(w: World, base: Base, op: Op, ed: Ed25519, foreignKeys: bool)
    requires IdentityInv(w.t, base) && TrustInv(ed, w) && CertInv(ed, w.t) && Accounts.Enabled(w, op, foreignKeys)
    ensures CertInv(ed, Next(w, op, ed, foreignKeys).t) <==> !ResignsBadly(ed, w, op)
  {
    if op.ResignCerts? {
      ResignKeepsCerts(w, op, ed, foreignKeys);
    } else {
      var v := Next(w, op, ed, foreignKeys);
      assert w.t.keyLog <= v.t.keyLog;
      forall d | d in v.t.devices
        ensures CertOnFile(ed, v.t.keyLog, d, v.t.devices[d])
      {
        RowCertAfter(w, op, ed, foreignKeys, d);
        CertOnFilePrefix(ed, w.t.keyLog, v.t.keyLog, d, v.t.devices[d]);
      }
    }
  }

  lemma {:induction false} RunKeepsCerts(ws: seq<World>, ops: seq<Op>, base: Base, ed: Ed25519, foreignKeys: bool,
                                         n: nat)
    requires Run(ws, ops, ed, foreignKeys) && Migrated(ws[0].t, base) && TrustInv(ed, ws[0]) && n < |ws|
    requires CertInv(ed, ws[0].t) && forall i :: 0 <= i < n ==> !ResignsBadly(ed, ws[i], ops[i])
    ensures CertInv(ed, ws[n].t)
  {
    if n > 0 {
      RunKeepsCerts(ws, ops, base, ed, foreignKeys, n - 1);
      RunKeepsIdentity(ws, ops, base, ed, foreignKeys, n - 1);
      RunKeepsTrust(ws, ops, base, ed, foreignKeys, n - 1);
      assert Follows(ws[n - 1], ops[n - 1], ws[n - 1 + 1], ed, foreignKeys);
      StepKeepsCerts(ws[n - 1], base, ops[n - 1], ed, foreignKeys);
    }
  }

  /** Empty tables are such a start. */
  lemma EmptyIsTrusted(w: World, ed: Ed25519)
    requires Empty(w)
    ensures Migrated(w.t, map[]) && TrustInv(ed, w) && CertInv(ed, w.t) && Named(w.t)
  {
  }

  /** Re-signing any certified device with an empty certificate is accepted and breaks the pairing. */
  lemma EmptyCertIsStored(w: World, d: DeviceId, ed: Ed25519, foreignKeys: bool)
    requires d in w.t.devices && w.t.devices[d].signaturePub.Some?
    ensures !CertInv(ed, Next(w, ResignCerts(w.t.devices[d].owner, [Resigned(d, StoredCert([], 0, 1))]), ed,
                                 foreignKeys).t)
  {
    var op := ResignCerts(w.t.devices[d].owner, [Resigned(d, StoredCert([], 0, 1))]);
    var v := Next(w, op, ed, foreignKeys);
    assert LastCert(op.certs, d) == Some(StoredCert([], 0, 1));
    ResignRow(w.t.devices, op.u, op.certs, d);
    assert !CertOnFile(ed, v.t.keyLog, d, v.t.devices[d]);
  }

  // ---------------------------------------------------------------- reset and deletion

  /** Another user's seat after the actor left: still there, never demoted, promoted only in place of a sole admin. */
  ghost predicate SeatKept(before: Seats, after: Seats, u: User, s: Seat) {
    && (s in after <==> s in before)
    && (s in before ==> after[s] == before[s] || (after[s] == Admin && SoleAdmin(before, s.group, u)))
  }

  lemma SeatsKept(t: Tables, groups: set<Group>, seats: Seats, u: User, foreignKeys: bool, s: Seat)
    requires GroupsHandedOff(t, groups, seats, u, foreignKeys) && s.user != u
    ensures SeatKept(t.seats, WithoutUser(seats, u), u, s)
  {
    SeatAfterHandoff(t.seats, seats, u, foreignKeys, s);
  }

  /** Reset leaves the actor the one named device at most, and everybody else's rows as they were. */
  lemma ResetFrame(t: Tables, groups: set<Group>, seats: Seats, u: User, keep: Option<DeviceId>, foreignKeys: bool)
    requires GroupsHandedOff(t, groups, seats, u, foreignKeys)
    ensures var t' := Reset(t, groups, seats, u, keep);
            && (forall s :: s in t'.seats ==> s.user != u)
            && (forall m :: m in t'.dms <==> m in t.dms && m.user != u)
            && (forall p :: p in t'.packages <==> p in t.packages && p.user != u)
            && (forall d :: d in t'.devices <==> d in t.devices && (t.devices[d].owner == u ==> keep == Some(d)))
            && (forall d :: d in t'.devices ==> t'.devices[d] == t.devices[d])
            && (forall s: Seat :: s.user != u ==> SeatKept(t.seats, t'.seats, u, s))
            && t'.groups == t.groups - SoleGroups(t.seats, u)
            && t'.users == t.users && t'.keyLog == t.keyLog && t'.recovery == t.recovery && t'.envelopes == t.envelopes
  {
    forall s: Seat | s.user != u
      ensures SeatKept(t.seats, WithoutUser(seats, u), u, s)
    {
      SeatsKept(t, groups, seats, u, foreignKeys, s);
    }
  }

  /** Deletion leaves nothing of the actor but the key log, and everybody else's rows as they were. */
  lemma DeleteFrame(t: Tables, groups: set<Group>, seats: Seats, u: User, foreignKeys: bool)
    requires GroupsHandedOff(t, groups, seats, u, foreignKeys)
    ensures var t' := Delete(t, groups, seats, u, foreignKeys);
            && u !in t'.users && (forall x :: x != u ==> (x in t'.users <==> x in t.users))
            && (forall x :: x in t'.users ==> t'.users[x] == t.users[x])
            && (forall s :: s in t'.seats ==> s.user != u)
            && (forall s: Seat :: s.user != u ==> SeatKept(t.seats, t'.seats, u, s))
            && (forall p :: p in t'.packages <==> p in t.packages && p.user != u)
            && (forall m :: m in t'.envelopes <==> m in t.envelopes && m.sender != u)
            && (forall m: DmSeat :: m.user != u ==> (m in t'.dms <==> m in t.dms))
            && (forall d :: d in t.devices && t.devices[d].owner != u ==>
                  d in t'.devices && t'.devices[d] == t.devices[d])
            && (forall x :: x in t.recovery && x != u ==> x in t'.recovery && t'.recovery[x] == t.recovery[x])
            && (foreignKeys ==> u !in t'.recovery && (forall m :: m in t'.dms ==> m.user != u)
                                && (forall d :: d in t'.devices ==> t'.devices[d].owner != u))
            && t'.devices.Keys <= t.devices.Keys && t'.recovery.Keys <= t.recovery.Keys && t'.dms <= t.dms
            && (!foreignKeys ==> t'.devices == t.devices && t'.recovery == t.recovery && t'.dms == t.dms)
            && t'.groups == t.groups - SoleGroups(t.seats, u) && t'.keyLog == t.keyLog
  {
    forall s: Seat | s.user != u
      ensures SeatKept(t.seats, WithoutUser(seats, u), u, s)
    {
      SeatsKept(t, groups, seats, u, foreignKeys, s);
    }
  }

  /** After a reset or a deletion every surviving group of the actor has a member, and an admin if it had one. */
  lemma GroupsSurvive(t: Tables, groups: set<Group>, seats: Seats, u: User, foreignKeys: bool, g: Group)
    requires GroupsHandedOff(t, groups, seats, u, foreignKeys) && g in groups
    ensures Seat(g, u) in t.seats ==> MembersOf(WithoutUser(seats, u), g) != {}
    ensures HasAdmin(t.seats, g) ==> HasAdmin(WithoutUser(seats, u), g)
    ensures Seat(g, u) !in t.seats ==> InGroup(WithoutUser(seats, u), g) == InGroup(t.seats, g)
  {
    LeavingIsSafe(t.groups, t.seats, seats, u, foreignKeys, g);
  }

  // ---------------------------------------------------------------- every endpoint is self-scoped

  function RowsOf(log: seq<LogRow>, v: User): seq<LogRow> {
    if log == [] then []
    else RowsOf(log[..|log| - 1], v) + if log[|log| - 1].user == v then [log[|log| - 1]] else []
  }

  /** Everything the tables hold for one user, group seats aside. */
  datatype View = View(user: Option<UserRow>, recovery: Option<Recovery>, keys: seq<LogRow>,
                       devices: map<DeviceId, DeviceRow>,
                       dms: set<DmSeat>, packages: set<KeyPackage>, envelopes: set<Sent>)

  function ViewOf(t: Tables, v: User): View {
    View(if v in t.users then Some(t.users[v]) else None,
         if v in t.recovery then Some(t.recovery[v]) else None,
         RowsOf(t.keyLog, v),
         DevicesOf(t.devices, v),
         set m | m in t.dms && m.user == v,
         set p | p in t.packages && p.user == v,
         set m | m in t.envelopes && m.sender == v)
  }

  /** The request registers a device that is already on file for this user. */
  predicate Registers(w: World, op: Op, v: User) {
    op.RegisterDevice? && op.d in w.t.devices && w.t.devices[op.d].owner == v
  }

  /** Registering somebody's device marks it as seen, if the clock has moved, and names it if it has no name. */
  predicate Touches(w: World, op: Op, v: User) {
    Registers(w, op, v) && (w.t.devices[op.d].lastSeen != op.now || w.t.devices[op.d].name.None?)
  }

  predicate FillsName(w: World, op: Op, v: User) {
    Registers(w, op, v) && w.t.devices[op.d].name.None?
  }

  /** One of these endpoints, acting for somebody else and touching no device of the user's. */
  predicate LeavesAlone(w: World, op: Op, v: User) {
    !op.EditElsewhere? && op.u != v && !Touches(w, op, v)
  }

  ghost predicate Named(t: Tables) {
    forall d :: d in t.devices ==> t.devices[d].name.Some?
  }

  lemma StepKeepsNamed(w: World, op: Op, ed: Ed25519, foreignKeys: bool)
    requires Named(w.t)
    ensures Named(Next(w, op, ed, foreignKeys).t) && forall v :: !FillsName(w, op, v)
  {
    if op.ResignCerts? {
      forall d | d in Next(w, op, ed, foreignKeys).t.devices
        ensures Next(w, op, ed, foreignKeys).t.devices[d].name.Some?
      {
        ResignRow(w.t.devices, op.u, op.certs, d);
      }
    }
  }

  lemma RowsOfAppend(log: seq<LogRow>, row: LogRow, v: User)
    ensures RowsOf(log + [row], v) == RowsOf(log, v) + if row.user == v then [row] else []
  {
    assert (log + [row])[..|log|] == log;
  }

  lemma StepKeepsOthersKeys(w: World, op: Op, ed: Ed25519, foreignKeys: bool, v: User)
    requires !op.EditElsewhere? && op.u != v
    ensures RowsOf(Next(w, op, ed, foreignKeys).t.keyLog, v) == RowsOf(w.t.keyLog, v)
  {
    if op.EstablishIdentity? {
      RowsOfAppend(w.t.keyLog, LogRow(op.u, op.key, 1), v);
    } else if op.RotateIdentity? {
      RowsOfAppend(w.t.keyLog, LogRow(op.u, op.key, op.basedOn + 1), v);
    }
  }

  ghost predicate SameFor(a: map<DeviceId, DeviceRow>, b: map<DeviceId, DeviceRow>, v: User, d: DeviceId) {
    && (d in a && a[d].owner == v <==> d in b && b[d].owner == v)
    && (d in a && a[d].owner == v ==> d in b && b[d] == a[d])
  }

  lemma StepKeepsOthersDevice(w: World, op: Op, ed: Ed25519, foreignKeys: bool, v: User, d: DeviceId)
    requires LeavesAlone(w, op, v)
    ensures SameFor(w.t.devices, Next(w, op, ed, foreignKeys).t.devices, v, d)
  {
    if op.ResignCerts? {
      ResignRow(w.t.devices, op.u, op.certs, d);
    }
  }

  function DevicesOf(devices: map<DeviceId, DeviceRow>, v: User): map<DeviceId, DeviceRow> {
    map d | d in devices && devices[d].owner == v :: devices[d]
  }

  lemma SameDevices(a: map<DeviceId, DeviceRow>, b: map<DeviceId, DeviceRow>, v: User)
    requires forall d :: SameFor(a, b, v, d)
    ensures DevicesOf(a, v) == DevicesOf(b, v)
  {
    forall d: DeviceId
      ensures d in DevicesOf(a, v) <==> d in DevicesOf(b, v)
      ensures d in DevicesOf(a, v) ==> DevicesOf(a, v)[d] == DevicesOf(b, v)[d]
    {
      assert SameFor(a, b, v, d);
    }
  }

  lemma StepKeepsOthersDevices(w: World, op: Op, ed: Ed25519, foreignKeys: bool, v: User)
    requires LeavesAlone(w, op, v)
    ensures DevicesOf(Next(w, op, ed, foreignKeys).t.devices, v) == DevicesOf(w.t.devices, v)
  {
    var after := Next(w, op, ed, foreignKeys).t.devices;
    forall d: DeviceId
      ensures SameFor(w.t.devices, after, v, d)
    {
      StepKeepsOthersDevice(w, op, ed, foreignKeys, v, d);
    }
    SameDevices(w.t.devices, after, v);
  }

  lemma StepKeepsOthersSets(w: World, op: Op, ed: Ed25519, foreignKeys: bool, v: User)
    requires !op.EditElsewhere? && op.u != v
    ensures var t, t' := w.t, Next(w, op, ed, foreignKeys).t;
            && (set m | m in t'.dms && m.user == v) == (set m | m in t.dms && m.user == v)
            && (set p | p in t'.packages && p.user == v) == (set p | p in t.packages && p.user == v)
            && (set m | m in t'.envelopes && m.sender == v) == (set m | m in t.envelopes && m.sender == v)
  {
  }

  lemma TouchShows(t: Tables, u: User, d: DeviceId, name: string, now: int, foreignKeys: bool, v: User)
    requires d in t.devices && t.devices[d].owner == v && (t.devices[d].lastSeen != now || t.devices[d].name.None?)
    ensures ViewOf(Register(t, u, d, name, now, foreignKeys).t, v) != ViewOf(t, v)
  {
    var after := Register(t, u, d, name, now, foreignKeys).t.devices;
    assert DevicesOf(after, v)[d] != DevicesOf(t.devices, v)[d];
  }

  lemma StepKeepsOthersAccount(w: World, op: Op, ed: Ed25519, foreignKeys: bool, v: User)
    requires LeavesAlone(w, op, v)
    ensures var t, t' := w.t, Next(w, op, ed, foreignKeys).t;
            && (v in t'.users <==> v in t.users) && (v in t.users ==> t'.users[v] == t.users[v])
            && (v in t'.recovery <==> v in t.recovery) && (v in t.recovery ==> t'.recovery[v] == t.recovery[v])
  {
  }

  lemma SameColumns(t: Tables, t': Tables, v: User)
    requires v in t'.users <==> v in t.users
    requires v in t.users ==> t'.users[v] == t.users[v]
    requires v in t'.recovery <==> v in t.recovery
    requires v in t.recovery ==> t'.recovery[v] == t.recovery[v]
    requires RowsOf(t'.keyLog, v) == RowsOf(t.keyLog, v) && DevicesOf(t'.devices, v) == DevicesOf(t.devices, v)
    requires (set m | m in t'.dms && m.user == v) == (set m | m in t.dms && m.user == v)
    requires (set p | p in t'.packages && p.user == v) == (set p | p in t.packages && p.user == v)
    requires (set m | m in t'.envelopes && m.sender == v) == (set m | m in t.envelopes && m.sender == v)
    ensures ViewOf(t', v) == ViewOf(t, v)
  {
  }

  lemma StepKeepsView(w: World, op: Op, ed: Ed25519, foreignKeys: bool, v: User)
    requires LeavesAlone(w, op, v)
    ensures ViewOf(Next(w, op, ed, foreignKeys).t, v) == ViewOf(w.t, v)
  {
    StepKeepsOthersAccount(w, op, ed, foreignKeys, v);
    StepKeepsOthersKeys(w, op, ed, foreignKeys, v);
    StepKeepsOthersDevices(w, op, ed, foreignKeys, v);
    StepKeepsOthersSets(w, op, ed, foreignKeys, v);
    SameColumns(w.t, Next(w, op, ed, foreignKeys).t, v);
  }

  /**
   * A step for somebody else leaves what the tables hold for a user alone, exactly unless it
   * registers a device of theirs at a later time, or one that has no name.
   */
  lemma StepIsSelfScoped(w: World, op: Op, ed: Ed25519, foreignKeys: bool, v: User)
    requires !op.EditElsewhere? && op.u != v
    ensures ViewOf(Next(w, op, ed, foreignKeys).t, v) == ViewOf(w.t, v) <==> !Touches(w, op, v)
  {
    if Touches(w, op, v) {
      TouchShows(w.t, op.u, op.d, op.name, op.now, foreignKeys, v);
    } else {
      StepKeepsView(w, op, ed, foreignKeys, v);
    }
  }

  /** A view without the times its devices were last seen. */
  function Apart(view: View): View {
    view.(devices := map d | d in view.devices :: view.devices[d].(lastSeen := 0))
  }

  lemma RegisterShowsApart(t: Tables, u: User, d: DeviceId, name: string, now: int, foreignKeys: bool, v: User)
    requires d in t.devices && t.devices[d].owner == v
    ensures Apart(ViewOf(Register(t, u, d, name, now, foreignKeys).t, v)) == Apart(ViewOf(t, v)) <==>
            t.devices[d].name.Some?
  {
    var before, after := ViewOf(t, v), ViewOf(Register(t, u, d, name, now, foreignKeys).t, v);
    if t.devices[d].name.None? {
      assert Apart(after).devices[d] != Apart(before).devices[d];
    } else {
      assert Apart(after).devices == Apart(before).devices;
    }
  }

  /**
   * Names, keys, certificates, revocations and everything else but the last-seen time stay as they
   * are, exactly unless the step registers a device of theirs that has no name.
   */
  lemma StepKeepsApart(w: World, op: Op, ed: Ed25519, foreignKeys: bool, v: User)
    requires !op.EditElsewhere? && op.u != v
    ensures Apart(ViewOf(Next(w, op, ed, foreignKeys).t, v)) == Apart(ViewOf(w.t, v)) <==> !FillsName(w, op, v)
  {
    if Registers(w, op, v) {
      RegisterShowsApart(w.t, op.u, op.d, op.name, op.now, foreignKeys, v);
    } else {
      StepKeepsView(w, op, ed, foreignKeys, v);
    }
  }

  /** From rows that all have names no step ever fills one in. */
  lemma {:induction false} RunNamed(ws: seq<World>, ops: seq<Op>, ed: Ed25519, foreignKeys: bool, n: nat)
    requires Run(ws, ops, ed, foreignKeys) && Named(ws[0].t) && n < |ws|
    ensures Named(ws[n].t)
    ensures n < |ops| ==> forall v :: !FillsName(ws[n], ops[n], v)
  {
    if n > 0 {
      RunNamed(ws, ops, ed, foreignKeys, n - 1);
      assert Follows(ws[n - 1], ops[n - 1], ws[n - 1 + 1], ed, foreignKeys);
      StepKeepsNamed(ws[n - 1], ops[n - 1], ed, foreignKeys);
    }
  }

  ghost predicate SameView(w: World, x: World, v: User) {
    ViewOf(x.t, v) == ViewOf(w.t, v)
  }

  lemma {:induction false} SameViewAlong(ws: seq<World>, v: User, i: nat, j: nat)
    requires i <= j < |ws| && forall k :: i <= k < j ==> SameView(ws[k], ws[k + 1], v)
    ensures SameView(ws[i], ws[j], v)
  {
    if i < j {
      SameViewAlong(ws, v, i, j - 1);
      assert SameView(ws[j - 1], ws[j - 1 + 1], v);
    }
  }

  /**
   * Over any stretch of any run in which nothing acts for a user or registers one of their
   * devices, their rows stay.
   */
  lemma RunIsSelfScoped(ws: seq<World>, ops: seq<Op>, ed: Ed25519, foreignKeys: bool, v: User, i: nat, j: nat)
    requires Run(ws, ops, ed, foreignKeys) && i <= j < |ws|
    requires forall k :: i <= k < j ==> LeavesAlone(ws[k], ops[k], v)
    ensures ViewOf(ws[j].t, v) == ViewOf(ws[i].t, v)
  {
    forall k | i <= k < j
      ensures SameView(ws[k], ws[k + 1], v)
    {
      assert Follows(ws[k], ops[k], ws[k + 1], ed, foreignKeys) && LeavesAlone(ws[k], ops[k], v);
      StepKeepsView(ws[k], ops[k], ed, foreignKeys, v);
    }
    SameViewAlong(ws, v, i, j);
    assert SameView(ws[i], ws[j], v);
  }

  ghost predicate SameApart(w: World, x: World, v: User) {
    Apart(ViewOf(x.t, v)) == Apart(ViewOf(w.t, v))
  }

  lemma {:induction false} SameApartAlong(ws: seq<World>, v: User, i: nat, j: nat)
    requires i <= j < |ws| && forall k :: i <= k < j ==> SameApart(ws[k], ws[k + 1], v)
    ensures SameApart(ws[i], ws[j], v)
  {
    if i < j {
      SameApartAlong(ws, v, i, j - 1);
      assert SameApart(ws[j - 1], ws[j - 1 + 1], v);
    }
  }

  /** One of these endpoints, acting for somebody else and naming no device of the user's. */
  predicate KeepsNames(w: World, op: Op, v: User) {
    !op.EditElsewhere? && op.u != v && !FillsName(w, op, v)
  }

  /** Over any stretch in which nothing acts for a user or names one of their devices, only last-seen times change. */
  lemma RunKeepsApart(ws: seq<World>, ops: seq<Op>, ed: Ed25519, foreignKeys: bool, v: User, i: nat, j: nat)
    requires Run(ws, ops, ed, foreignKeys) && i <= j < |ws|
    requires forall k :: i <= k < j ==> KeepsNames(ws[k], ops[k], v)
    ensures Apart(ViewOf(ws[j].t, v)) == Apart(ViewOf(ws[i].t, v))
  {
    forall k | i <= k < j
      ensures SameApart(ws[k], ws[k + 1], v)
    {
      assert Follows(ws[k], ops[k], ws[k + 1], ed, foreignKeys) && KeepsNames(ws[k], ops[k], v);
      StepKeepsApart(ws[k], ops[k], ed, foreignKeys, v);
    }
    SameApartAlong(ws, v, i, j);
    assert SameApart(ws[i], ws[j], v);
  }

  /** The device of somebody else that is registered a second later shows a new last-seen time. */
  lemma RegisteringMarksSeen(w: World, d: DeviceId, u: User, name: string, ed: Ed25519, foreignKeys: bool)
    requires d in w.t.devices && u != w.t.devices[d].owner
    ensures var op := RegisterDevice(u, d, name, w.t.devices[d].lastSeen + 1);
            var x := Next(w, op, ed, foreignKeys);
            x.t.devices[d].lastSeen == w.t.devices[d].lastSeen + 1 && !SameView(w, x, w.t.devices[d].owner)
  {
    var now := w.t.devices[d].lastSeen + 1;
    TouchShows(w.t, u, d, name, now, foreignKeys, w.t.devices[d].owner);
  }
}
