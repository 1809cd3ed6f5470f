/** The byte strings that devices and accounts sign. */
module SignedPayloads {
  import opened Common
  import opened Encoding

  type Bytes = seq<Byte>

  // ---------------------------------------------------------------- device certificates

  /** The text "pollis-device-cert-v1" and a zero byte. */
  const DEVICE_CERT_DOMAIN: Bytes :=
    [112, 111, 108, 108, 105, 115, 45, 100, 101, 118, 105, 99, 101, 45, 99, 101, 114, 116, 45, 118, 49, 0]

  /** What a device certificate signs: the account key vouches for one device's signing key. */
  datatype Claim = Claim(deviceId: Bytes, signaturePub: Bytes, version: U32, issuedAt: U64)

  function LengthPrefixed(s: Bytes): Bytes
    requires |s| < 256
  {
    [|s|] + s
  }

  function CertPayload(c: Claim): Option<Bytes> {
    if |c.deviceId| > 255 || |c.signaturePub| > 255 then None
    else Some(DEVICE_CERT_DOMAIN + (LengthPrefixed(c.deviceId) + (LengthPrefixed(c.signaturePub)
              + (U32Be(c.version) + U64Be(c.issuedAt)))))
  }

  lemma PrefixedSplits(a: Bytes, x: Bytes, b: Bytes, y: Bytes)
    requires |a| < 256 && |b| < 256 && LengthPrefixed(a) + x == LengthPrefixed(b) + y
    ensures a == b && x == y
  {
    assert (LengthPrefixed(a) + x)[0] == |a| && (LengthPrefixed(b) + y)[0] == |b|;
    SameParts(LengthPrefixed(a), x, LengthPrefixed(b), y);
    assert LengthPrefixed(a)[1..] == a && LengthPrefixed(b)[1..] == b;
  }

  /** One signed payload vouches for one claim only, and every claim of admissible lengths has one. */
  lemma CertPayloadInjective(c: Claim, d: Claim)
    requires CertPayload(c).Some? && CertPayload(c) == CertPayload(d)
    ensures c == d
  {
    var tc, td := U32Be(c.version) + U64Be(c.issuedAt), U32Be(d.version) + U64Be(d.issuedAt);
    var sc, sd := LengthPrefixed(c.signaturePub) + tc, LengthPrefixed(d.signaturePub) + td;
    var rc, rd := LengthPrefixed(c.deviceId) + sc, LengthPrefixed(d.deviceId) + sd;
    SameParts(DEVICE_CERT_DOMAIN, rc, DEVICE_CERT_DOMAIN, rd);
    PrefixedSplits(c.deviceId, sc, d.deviceId, sd);
    PrefixedSplits(c.signaturePub, tc, d.signaturePub, td);
    SameParts(U32Be(c.version), U64Be(c.issuedAt), U32Be(d.version), U64Be(d.issuedAt));
    U32BeInjective(c.version, d.version);
    U64BeInjective(c.issuedAt, d.issuedAt);
  }

  /** Where each field stands in the payload. */
  lemma CertPayloadLayout(c: Claim, p: Bytes)
    requires CertPayload(c) == Some(p)
    ensures var n, m := |c.deviceId|, |c.signaturePub|;
            && |p| == 22 + 1 + n + 1 + m + 4 + 8
            && p[..22] == DEVICE_CERT_DOMAIN && p[22] == n && p[23..23 + n] == c.deviceId
            && p[23 + n] == m && p[24 + n..24 + n + m] == c.signaturePub
            && p[24 + n + m..28 + n + m] == U32Be(c.version) && p[28 + n + m..] == U64Be(c.issuedAt)
  {
    var tail := U32Be(c.version) + U64Be(c.issuedAt);
    var key := LengthPrefixed(c.signaturePub) + tail;
    var rest := LengthPrefixed(c.deviceId) + key;
    assert p == DEVICE_CERT_DOMAIN + rest;
    assert p[22..] == rest && rest[1 + |c.deviceId|..] == key && key[1 + |c.signaturePub|..] == tail;
  }

  /** Ed25519 verification of a message and a signature under a key. */
  type Ed25519 = (Bytes, Bytes, Bytes) -> bool

  predicate VerifyDeviceCert(ed: Ed25519, accountKey: Bytes, c: Claim, cert: Bytes) {
    && |accountKey| == 32
    && |cert| == 64
    && CertPayload(c).Some?
    && ed(accountKey, CertPayload(c).value, cert)
  }

  /** A claim can be vouched for exactly if both its strings fit a one-byte length. */
  lemma CertPayloadExists(c: Claim)
    ensures CertPayload(c).Some? <==> |c.deviceId| < 256 && |c.signaturePub| < 256
  {
  }

  /**
   * A certificate verifies exactly if key and signature have their fixed lengths and the signature
   * is over the claim.
   */
  lemma CertVerifiesExactly(ed: Ed25519, accountKey: Bytes, c: Claim, cert: Bytes)
    ensures VerifyDeviceCert(ed, accountKey, c, cert) <==>
            |accountKey| == 32 && |cert| == 64 && exists p :: CertPayload(c) == Some(p) && ed(accountKey, p, cert)
  {
  }

  // ---------------------------------------------------------------- signed requests

  function CanonicalMessage(sha: Bytes -> Bytes, verb: string, path: string, timestamp: int, body: Bytes): string {
    verb + (['\n'] + (path + (['\n'] + (SignedDecimal(timestamp) + (['\n'] + Hex(sha(body)))))))
  }

  method HexLower(bytes: Bytes) returns (out: string)
    ensures out == Hex(bytes)
  {
    out := [];
    for i := 0 to |bytes|
      invariant out == Hex(bytes[..i])
    {
      assert bytes[..i + 1][..i] == bytes[..i];
      out := out + [HexDigit(bytes[i] / 16)];
      out := out + [HexDigit(bytes[i] % 16)];
    }
    assert bytes[..|bytes|] == bytes;
  }

  lemma SplitAtNewline(a: string, x: string, b: string, y: string)
    requires '\n' !in a && '\n' !in b
    requires a + (['\n'] + x) == b + (['\n'] + y)
    ensures a == b && x == y
  {
    var l, r := a + (['\n'] + x), b + (['\n'] + y);
    assert l[|a|] == '\n' && r[|b|] == '\n';
    assert forall i :: 0 <= i < |a| ==> l[i] == a[i];
    assert forall i :: 0 <= i < |b| ==> r[i] == b[i];
    assert |a| == |b|;
    SameParts(a, ['\n'] + x, b, ['\n'] + y);
    SameParts(['\n'], x, ['\n'], y);
  }

  lemma DecimalHasNoNewline(n: int)
    ensures '\n' !in SignedDecimal(n)
  {
    DecimalRoundTrip(if n < 0 then -n else n);
  }

  lemma {:induction false} HexHasNoNewline(bytes: Bytes)
    ensures '\n' !in Hex(bytes)
  {
    if bytes != [] {
      HexHasNoNewline(bytes[..|bytes| - 1]);
    }
  }

  /** A text cut at its newlines. */
  function Lines(s: string): (lines: seq<string>)
    ensures |lines| >= 1
  {
    if s == [] then [[]]
    else
      var rest := Lines(s[1..]);
      if s[0] == '\n' then [[]] + rest else [[s[0]] + rest[0]] + rest[1..]
  }

  lemma {:induction false} FirstLine(a: string, rest: string, s: string, lines: seq<string>)
    requires '\n' !in a && s == a + (['\n'] + rest) && lines == Lines(rest)
    ensures Lines(s) == [a] + lines
  {
    if a == [] {
      assert s[1..] == rest;
    } else {
      FirstLine(a[1..], rest, s[1..], lines);
      assert [a[0]] + a[1..] == a;
    }
  }

  lemma {:induction false} OnlyLine(a: string)
    requires '\n' !in a
    ensures Lines(a) == [a]
  {
    if a != [] {
      OnlyLine(a[1..]);
      assert [a[0]] + a[1..] == a;
    }
  }

  /** The four lines of the message, in order: method, path, time in decimal, digest of the body in hexadecimal. */
  lemma CanonicalMessageLines(sha: Bytes -> Bytes, verb: string, path: string, ts: int, body: Bytes)
    requires '\n' !in verb && '\n' !in path
    ensures Lines(CanonicalMessage(sha, verb, path, ts, body)) == [verb, path, SignedDecimal(ts), Hex(sha(body))]
  {
    var h, d := Hex(sha(body)), SignedDecimal(ts);
    var t := d + (['\n'] + h);
    var p := path + (['\n'] + t);
    HexHasNoNewline(sha(body));
    DecimalHasNoNewline(ts);
    OnlyLine(h);
    FirstLine(d, h, t, [h]);
    FirstLine(path, t, p, [d, h]);
    FirstLine(verb, p, verb + (['\n'] + p), [path, d, h]);
  }

  function Newlines(s: string): nat {
    multiset(s)['\n']
  }

  lemma NewlinesOfJoin(a: string, b: string)
    ensures Newlines(a + (['\n'] + b)) == Newlines(a) + 1 + Newlines(b)
  {
    assert multiset(['\n'])['\n'] == 1;
  }

  lemma NewlinesOfMessage(sha: Bytes -> Bytes, verb: string, path: string, ts: int, body: Bytes)
    ensures Newlines(CanonicalMessage(sha, verb, path, ts, body)) == Newlines(verb) + Newlines(path) + 3
  {
    var h := Hex(sha(body));
    var t := SignedDecimal(ts) + (['\n'] + h);
    HexHasNoNewline(sha(body));
    DecimalHasNoNewline(ts);
    NewlinesOfJoin(SignedDecimal(ts), h);
    NewlinesOfJoin(path, t);
    NewlinesOfJoin(verb, path + (['\n'] + t));
  }

  /**
   * A signature over a request whose method and path hold no newline is a signature over no other
   * method, path, time or body digest, whatever the other request looks like.
   */
  lemma CanonicalMessageInjective(sha: Bytes -> Bytes, verb: string, path: string, ts: int, body: Bytes,
                                  verb': string, path': string, ts': int, body': Bytes)
    requires '\n' !in verb && '\n' !in path
    requires CanonicalMessage(sha, verb, path, ts, body) == CanonicalMessage(sha, verb', path', ts', body')
    ensures verb == verb' && path == path' && ts == ts' && sha(body) == sha(body')
  {
    NewlinesOfMessage(sha, verb, path, ts, body);
    NewlinesOfMessage(sha, verb', path', ts', body');
    var h, h' := Hex(sha(body)), Hex(sha(body'));
    var t, t' := SignedDecimal(ts) + (['\n'] + h), SignedDecimal(ts') + (['\n'] + h');
    var p, p' := path + (['\n'] + t), path' + (['\n'] + t');
    SplitAtNewline(verb, p, verb', p');
    SplitAtNewline(path, t, path', t');
    DecimalHasNoNewline(ts);
    DecimalHasNoNewline(ts');
    SplitAtNewline(SignedDecimal(ts), h, SignedDecimal(ts'), h');
    SignedDecimalInjective(ts, ts');
    HexInjective(sha(body), sha(body'));
  }

  lemma Reassociate(a: string, n: string, q: string, r: string, rest: string)
    ensures a + (n + ((q + (n + r)) + rest)) == (a + (n + q)) + (n + (r + rest))
  {
    assert (q + (n + r)) + rest == q + (n + (r + rest));
    assert a + (n + (q + (n + (r + rest)))) == (a + (n + q)) + (n + (r + rest));
  }

  /** Any newline in a path could as well have ended the method, and the other way round. */
  lemma NewlineIsAmbiguous(sha: Bytes -> Bytes, verb: string, q: string, r: string, ts: int, body: Bytes)
    ensures CanonicalMessage(sha, verb, q + (['\n'] + r), ts, body) ==
            CanonicalMessage(sha, verb + (['\n'] + q), r, ts, body)
  {
    Reassociate(verb, ['\n'], q, r, ['\n'] + (SignedDecimal(ts) + (['\n'] + Hex(sha(body)))));
  }

  /** No request with another method, path, time or body digest has the same message. */
  ghost predicate Unambiguous(sha: Bytes -> Bytes, verb: string, path: string, ts: int, body: Bytes) {
    forall verb', path', ts', body' ::
      CanonicalMessage(sha, verb', path', ts', body') == CanonicalMessage(sha, verb, path, ts, body) ==>
      verb == verb' && path == path' && ts == ts' && sha(body) == sha(body')
  }

  lemma CutAtNewline(s: string) returns (a: string, b: string)
    requires '\n' in s
    ensures s == a + (['\n'] + b)
  {
    var i :| 0 <= i < |s| && s[i] == '\n';
    a, b := s[..i], s[i + 1..];
  }

  /** A signed request stands for itself alone exactly when its method and its path hold no newline. */
  lemma UnambiguousIsNewlineFree(sha: Bytes -> Bytes, verb: string, path: string, ts: int, body: Bytes)
    ensures Unambiguous(sha, verb, path, ts, body) <==> '\n' !in verb && '\n' !in path
  {
    if '\n' in verb {
      var v, q := CutAtNewline(verb);
      NewlineIsAmbiguous(sha, v, q, path, ts, body);
      assert v != verb;
    } else if '\n' in path {
      var q, r := CutAtNewline(path);
      NewlineIsAmbiguous(sha, verb, q, r, ts, body);
      assert verb + (['\n'] + q) != verb;
    } else {
      forall verb', path', ts', body' |
        CanonicalMessage(sha, verb', path', ts', body') == CanonicalMessage(sha, verb, path, ts, body)
        ensures verb == verb' && path == path' && ts == ts' && sha(body) == sha(body')
      {
        CanonicalMessageInjective(sha, verb, path, ts, body, verb', path', ts', body');
      }
    }
  }
}
