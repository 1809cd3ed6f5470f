/** The append-only transparency log: tenant-tagged entries in one Merkle tree,
    per-tenant invariant hooks, and what a monitor learns from its proofs.

    Digests are byte strings and SHA-256 is the parameter `sha`. Where a proof
    could be forged by a hash collision, the lemma names the set of strings that
    were hashed and asks that no two of them collide.
 */
module TransparencyLog {
  import opened Common
  import opened Encoding
  import opened Merkle

  /** A 32-byte SHA-256 digest. */
  type Digest = d: seq<Byte> | |d| == 32 witness seq(32, _ => 0)

  type Sha = seq<Byte> -> Digest

  function LeafPreimage(data: seq<Byte>): seq<Byte> {
    [0] + data
  }

  function NodePreimage(left: Digest, right: Digest): seq<Byte> {
    [1] + left + right
  }

  function NodeHash(sha: Sha): Combine<Digest> {
    (left: Digest, right: Digest) => sha(NodePreimage(left, right))
  }

  /** The root of any list; the empty log has the digest of the empty string. */
  function LogRoot(sha: Sha, leaves: seq<Digest>): Digest {
    if leaves == [] then sha([]) else RootHash(NodeHash(sha), leaves)
  }

  // ---------------------------------------------------------------- entries

  /** `tenant` and `data` as bytes; the tenant is a UTF-8 string. */
  datatype Entry = Entry(tenant: seq<Byte>, data: seq<Byte>)
  {
    /** The length is cast to 32 bits before it is written. */
    function Encode(): seq<Byte> {
      U32Be(|tenant| % 0x1_0000_0000) + tenant + data
    }

    function LeafHash(sha: Sha): Digest {
      sha(LeafPreimage(Encode()))
    }
  }

  lemma LengthByte(n: U32, k: nat, unit: nat)
    requires k < 4 && unit == Pow256(3 - k)
    ensures unit > 0 && U32Be(n)[k] == n / unit % 0x100
  {
    BigEndianAt(n, WORD, k);
  }

  lemma FourBytes(n: U32)
    ensures U32Be(n) == [n / 0x100_0000 % 0x100, n / 0x1_0000 % 0x100, n / 0x100 % 0x100, n % 0x100]
  {
    assert Pow256(1) == 0x100 && Pow256(2) == 0x1_0000 && Pow256(3) == 256 * Pow256(2);
    LengthByte(n, 0, 0x100_0000);
    LengthByte(n, 1, 0x1_0000);
    LengthByte(n, 2, 0x100);
    LengthByte(n, 3, 1);
  }

  /** What is hashed for an entry, byte by byte: zero, the tenant's length with the most
      significant byte first, the tenant, the data. */
  lemma LeafLayout(e: Entry)
    ensures var hashed, n := LeafPreimage(e.Encode()), |e.tenant| % 0x1_0000_0000;
            && |hashed| == 5 + |e.tenant| + |e.data|
            && hashed[..5] == [0, n / 0x100_0000 % 0x100, n / 0x1_0000 % 0x100, n / 0x100 % 0x100, n % 0x100]
            && hashed[5..5 + |e.tenant|] == e.tenant
            && hashed[5 + |e.tenant|..] == e.data
  {
    var n: U32 := |e.tenant| % 0x1_0000_0000;
    var length := U32Be(n);
    FourBytes(n);
    assert LeafPreimage(e.Encode()) == [0] + length + e.tenant + e.data;
  }

  /** One encoding fixes the low 32 bits of the tenant's length and the bytes after the prefix. */
  lemma SameFraming(a: Entry, b: Entry)
    requires a.Encode() == b.Encode()
    ensures |a.tenant| % 0x1_0000_0000 == |b.tenant| % 0x1_0000_0000 && a.tenant + a.data == b.tenant + b.data
    ensures |a.tenant| + |a.data| == |b.tenant| + |b.data|
  {
    var m: U32, n: U32 := |a.tenant| % 0x1_0000_0000, |b.tenant| % 0x1_0000_0000;
    var p, q := U32Be(m), U32Be(n);
    SameHead(p, a.tenant, a.data, q, b.tenant, b.data);
    U32BeInjective(m, n);
    assert |a.tenant + a.data| == |b.tenant + b.data|;
  }

  /** The length prefix makes the encoding unambiguous. */
  lemma EncodeInjective(a: Entry, b: Entry)
    requires |a.tenant| < 0x1_0000_0000 && |b.tenant| < 0x1_0000_0000
    requires a.Encode() == b.Encode()
    ensures a == b
  {
    SameFraming(a, b);
    SameParts(a.tenant, a.data, b.tenant, b.data);
  }

  /** No other entry has the same encoding. */
  ghost predicate Unambiguous(a: Entry) {
    forall b: Entry :: a.Encode() == b.Encode() ==> a == b
  }

  lemma ShortIsUnambiguous(a: Entry, b: Entry)
    requires |a.tenant| < 0x1_0000_0000 && |a.data| < 0x1_0000_0000 && a.Encode() == b.Encode()
    ensures a == b
  {
    SameFraming(a, b);
    SameParts(a.tenant, a.data, b.tenant, b.data);
  }

  /** 2^32 bytes can move between the tenant and the data without a trace. */
  lemma MoveBytes(tenant: seq<Byte>, long: seq<Byte>, data: seq<Byte>)
    requires |long| == 0x1_0000_0000
    ensures Entry(tenant + long, data).Encode() == Entry(tenant, long + data).Encode()
  {
    var n: U32 := |tenant| % 0x1_0000_0000;
    assert |tenant + long| % 0x1_0000_0000 == n;
    assert U32Be(n) + (tenant + long) + data == U32Be(n) + tenant + (long + data);
  }

  /** The encoding of an entry is nobody else's exactly when both its parts are shorter than 2^32 bytes. */
  lemma UnambiguousIsShort(a: Entry)
    ensures Unambiguous(a) <==> |a.tenant| < 0x1_0000_0000 && |a.data| < 0x1_0000_0000
  {
    if |a.tenant| >= 0x1_0000_0000 {
      var cut := |a.tenant| - 0x1_0000_0000;
      var front, long := a.tenant[..cut], a.tenant[cut..];
      assert a.tenant == front + long;
      MoveBytes(front, long, a.data);
      assert |front| < |a.tenant|;
    } else if |a.data| >= 0x1_0000_0000 {
      var long, rest := a.data[..0x1_0000_0000], a.data[0x1_0000_0000..];
      assert a.data == long + rest;
      MoveBytes(a.tenant, long, rest);
      assert |a.tenant + long| > |a.tenant|;
    } else {
      forall b: Entry | a.Encode() == b.Encode()
        ensures a == b
      {
        ShortIsUnambiguous(a, b);
      }
    }
  }

  /** A tenant whose length does not fit 32 bits breaks it. */
  lemma EncodeAmbiguous(long: seq<Byte>)
    requires |long| == 0x1_0000_0000
    ensures Entry(long, []).Encode() == Entry([], long).Encode()
  {
    assert U32Be(|long| % 0x1_0000_0000) + long + [] == U32Be(0) + [] + long;
  }

  function LeafHashes(sha: Sha, entries: seq<Entry>): (leaves: seq<Digest>)
    ensures |leaves| == |entries|
    ensures forall i :: 0 <= i < |entries| ==> leaves[i] == entries[i].LeafHash(sha)
  {
    seq(|entries|, i requires 0 <= i < |entries| => entries[i].LeafHash(sha))
  }

  /** The tree hash of section 2.1 of RFC 6962, at every size. */
  lemma RootOfParts(sha: Sha, entries: seq<Entry>, k: nat)
    requires |entries| > 1 ==> IsPowerOfTwo(k) && k < |entries| <= 2 * k
    ensures LogRoot(sha, LeafHashes(sha, entries)) ==
            if entries == [] then sha([])
            else if |entries| == 1 then sha([0] + entries[0].Encode())
            else sha([1] + LogRoot(sha, LeafHashes(sha, entries[..k])) + LogRoot(sha, LeafHashes(sha, entries[k..])))
  {
    if |entries| > 1 {
      var leaves := LeafHashes(sha, entries);
      SplitIsPower(|entries|);
      PowerOfTwoUnique(k, SplitPoint(|entries|), |entries|);
      assert leaves[..k] == LeafHashes(sha, entries[..k]) && leaves[k..] == LeafHashes(sha, entries[k..]);
      assert LogRoot(sha, leaves) == sha(NodePreimage(LogRoot(sha, leaves[..k]), LogRoot(sha, leaves[k..])));
    }
  }

  // ---------------------------------------------------------------- the log

  /** A tenant's rule: may `candidate` follow the tenant's entries so far? */
  type Invariant = (seq<Entry>, Entry) -> bool

  /** The entries of one tenant, in order. */
  function OfTenant(entries: seq<Entry>, tenant: seq<Byte>): seq<Entry> {
    if entries == [] then []
    else
      var rest := OfTenant(entries[..|entries| - 1], tenant);
      var last := entries[|entries| - 1];
      if last.tenant == tenant then rest + [last] else rest
  }

  /** Every entry was admitted by its tenant's rule when it was appended. */
  ghost predicate Admitted(invariants: map<seq<Byte>, Invariant>, entries: seq<Entry>) {
    forall i :: 0 <= i < |entries| && entries[i].tenant in invariants ==>
      invariants[entries[i].tenant](OfTenant(entries[..i], entries[i].tenant), entries[i])
  }

  lemma OfTenantAppend(entries: seq<Entry>, entry: Entry, tenant: seq<Byte>)
    ensures OfTenant(entries + [entry], tenant)
         == OfTenant(entries, tenant) + (if entry.tenant == tenant then [entry] else [])
  {
    assert (entries + [entry])[..|entries|] == entries;
  }

  predicate Rising(at: seq<nat>) {
    forall i, j :: 0 <= i < j < |at| ==> at[i] < at[j]
  }

  /** The entries of a tenant are the log's at some rising positions, and those are all the positions
      at which the log has an entry of the tenant. */
  lemma {:induction false} OfTenantIsExact(entries: seq<Entry>, tenant: seq<Byte>) returns (at: seq<nat>)
    ensures Rising(at) && |at| == |OfTenant(entries, tenant)|
    ensures forall k :: 0 <= k < |at| ==> at[k] < |entries| && OfTenant(entries, tenant)[k] == entries[at[k]]
    ensures forall i :: 0 <= i < |entries| ==> (entries[i].tenant == tenant <==> i in at)
  {
    if entries == [] {
      at := [];
    } else {
      var n := |entries| - 1;
      at := OfTenantIsExact(entries[..n], tenant);
      assert forall i :: 0 <= i < n ==> entries[..n][i] == entries[i];
      if entries[n].tenant == tenant {
        at := at + [n];
      }
    }
  }

  datatype InclusionProof = InclusionProof(leafIndex: nat, treeSize: nat, auditPath: seq<Digest>)
  datatype ConsistencyProof = ConsistencyProof(firstSize: nat, secondSize: nat, path: seq<Digest>)

  class VerifiableLog {
    const sha: Sha
    var entries: seq<Entry>
    var leaves: seq<Digest>
    const invariants: map<seq<Byte>, Invariant>

    ghost predicate Valid()
      reads this
    {
      leaves == LeafHashes(sha, entries) && Admitted(invariants, entries)
    }

    constructor (sha: Sha, invariants: map<seq<Byte>, Invariant>)
      ensures Valid() && entries == [] && this.sha == sha && this.invariants == invariants
    {
      this.sha := sha;
      this.invariants := invariants;
      entries, leaves := [], [];
    }

    /** The committed entries of a tenant, oldest first. */
    method TenantEntries(tenant: seq<Byte>) returns (existing: seq<Entry>)
      ensures existing == OfTenant(entries, tenant)
    {
      existing := [];
      for i := 0 to |entries|
        invariant existing == OfTenant(entries[..i], tenant)
      {
        OfTenantAppend(entries[..i], entries[i], tenant);
        assert entries[..i] + [entries[i]] == entries[..i + 1];
        if entries[i].tenant == tenant {
          existing := existing + [entries[i]];
        }
      }
      assert entries[..|entries|] == entries;
    }

    /** Appends if the tenant's rule, when there is one, admits the entry;
        otherwise leaves the log alone. */
    method Append(entry: Entry) returns (index: Option<nat>)
      requires Valid()
      modifies this
      ensures Valid()
      ensures index.None? <==> entry.tenant in invariants
                               && !invariants[entry.tenant](OfTenant(old(entries), entry.tenant), entry)
      ensures index.Some? ==> index.value == |old(entries)| && entries == old(entries) + [entry]
      ensures index.None? ==> entries == old(entries)
    {
      if entry.tenant in invariants {
        var existing := TenantEntries(entry.tenant);
        if !invariants[entry.tenant](existing, entry) {
          return None;
        }
      }
      index := Some(|entries|);
      ghost var before := entries;
      leaves := leaves + [entry.LeafHash(sha)];
      entries := entries + [entry];
      assert forall i :: 0 <= i < |before| ==> entries[..i] == before[..i];
      assert entries[..|before|] == before;
    }

    method Root() returns (root: Digest)
      requires Valid()
      ensures root == LogRoot(sha, LeafHashes(sha, entries))
    {
      root := LogRoot(sha, leaves);
    }

    method RootAt(size: nat) returns (root: Option<Digest>)
      requires Valid()
      ensures root == if size > |entries| then None else Some(LogRoot(sha, LeafHashes(sha, entries[..size])))
    {
      if size > |leaves| {
        return None;
      }
      assert leaves[..size] == LeafHashes(sha, entries[..size]);
      root := Some(LogRoot(sha, leaves[..size]));
    }

    /** The proof built for an entry verifies against the current root. */
    method ProveInclusion(index: nat) returns (proof: Option<InclusionProof>)
      requires Valid()
      ensures proof.Some? <==> index < |entries|
      ensures proof.Some? ==> proof.value.leafIndex == index && proof.value.treeSize == |entries|
                              && InclusionAccepted(sha, entries[index], proof.value, |entries|, LogRoot(sha, leaves))
    {
      if index >= |leaves| {
        return None;
      }
      proof := Some(InclusionProof(index, |leaves|, InclusionPath(NodeHash(sha), index, leaves)));
      InclusionComplete(NodeHash(sha), index, leaves);
    }

    /** The proof built for two sizes verifies against the roots the log had at
        those sizes. */
    method ProveConsistency(first: nat, second: nat) returns (proof: Option<ConsistencyProof>)
      requires Valid()
      ensures proof.Some? <==> 0 < first <= second <= |entries|
      ensures proof.Some? ==> proof.value.firstSize == first && proof.value.secondSize == second
                              && HeadsConsistent(sha, Head(first, LogRoot(sha, leaves[..first])),
                                                 Head(second, LogRoot(sha, leaves[..second])), proof.value)
    {
      if first == 0 || first > second || second > |leaves| {
        return None;
      }
      var now := leaves[..second];
      proof := Some(ConsistencyProof(first, second, ConsistencyPath(NodeHash(sha), first, now)));
      assert now[..first] == leaves[..first];
      ConsistencyComplete(NodeHash(sha), first, now);
    }
  }

  // ---------------------------------------------------------------- what the verifiers accept

  /** The size and root of a signed tree head. */
  datatype Head = Head(size: nat, root: Digest)

  ghost predicate InclusionAccepted(sha: Sha, entry: Entry, proof: InclusionProof, size: nat, root: Digest) {
    proof.treeSize == size && proof.leafIndex < size
    && Climb(NodeHash(sha), proof.leafIndex, size - 1, entry.LeafHash(sha), proof.auditPath) == Some(root)
  }

  method VerifyInclusionProof(sha: Sha, entry: Entry, proof: InclusionProof, head: Head) returns (ok: bool)
    ensures ok <==> InclusionAccepted(sha, entry, proof, head.size, head.root)
  {
    if proof.treeSize != head.size {
      return false;
    }
    ok := VerifyInclusion(NodeHash(sha), entry.LeafHash(sha), proof.leafIndex, proof.treeSize, proof.auditPath,
                          head.root);
  }

  ghost predicate HeadsConsistent(sha: Sha, past: Head, now: Head, proof: ConsistencyProof) {
    proof.firstSize == past.size && proof.secondSize == now.size
    && ConsistencyAccepted(NodeHash(sha), past.size, now.size, proof.path, past.root, now.root)
  }

  method VerifyConsistencyProof(sha: Sha, past: Head, now: Head, proof: ConsistencyProof) returns (ok: bool)
    ensures ok <==> HeadsConsistent(sha, past, now, proof)
  {
    if proof.firstSize != past.size || proof.secondSize != now.size {
      return false;
    }
    ok := VerifyConsistency(NodeHash(sha), proof.firstSize, proof.secondSize, proof.path, past.root, now.root);
  }

  // ---------------------------------------------------------------- what a monitor learns

  ghost predicate SameDigestSameString(sha: Sha, x: seq<Byte>, y: seq<Byte>) {
    sha(x) == sha(y) ==> x == y
  }

  /** No two different strings of `inputs` have one digest. */
  ghost predicate ShaCollisionFree(sha: Sha, inputs: set<seq<Byte>>) {
    forall x, y {:trigger SameDigestSameString(sha, x, y)} ::
      x in inputs && y in inputs ==> SameDigestSameString(sha, x, y)
  }

  /** Every string hashed to build the tree over `entries`. */
  ghost function TreeInputs(sha: Sha, entries: seq<Entry>): set<seq<Byte>> {
    (set e | e in entries :: LeafPreimage(e.Encode()))
    + if entries == [] then {} else PairInputs(TreePairs(NodeHash(sha), LeafHashes(sha, entries)))
  }

  ghost function PairInputs(pairs: set<(Digest, Digest)>): set<seq<Byte>> {
    set p | p in pairs :: NodePreimage(p.0, p.1)
  }

  /** Every string hashed to check an inclusion proof. */
  ghost function InclusionInputs(sha: Sha, entry: Entry, proof: InclusionProof): set<seq<Byte>>
    requires proof.leafIndex < proof.treeSize
  {
    {LeafPreimage(entry.Encode())}
    + PairInputs(ClimbPairs(NodeHash(sha), proof.leafIndex, proof.treeSize - 1, entry.LeafHash(sha), proof.auditPath))
  }

  ghost function ConsistencyInputs(sha: Sha, past: Head, now: Head, proof: ConsistencyProof): set<seq<Byte>> {
    PairInputs(ConsistencyPairs(NodeHash(sha), past.size, now.size, proof.path, past.root))
  }

  lemma PairsCollisionFree(sha: Sha, pairs: set<(Digest, Digest)>, inputs: set<seq<Byte>>)
    requires ShaCollisionFree(sha, inputs) && PairInputs(pairs) <= inputs
    ensures CollisionFree(NodeHash(sha), pairs)
  {
    forall a: Digest, b: Digest, c: Digest, d: Digest | (a, b) in pairs && (c, d) in pairs
      ensures NoClash(NodeHash(sha), a, b, c, d)
    {
      var x, y := NodePreimage(a, b), NodePreimage(c, d);
      assert x in PairInputs(pairs) by { assert x == NodePreimage((a, b).0, (a, b).1); }
      assert y in PairInputs(pairs) by { assert y == NodePreimage((c, d).0, (c, d).1); }
      assert SameDigestSameString(sha, x, y);
      if x == y {
        SameHead([1], a, b, [1], c, d);
        SameParts(a, b, c, d);
      }
    }
  }

  lemma PairInputsUnion(p: set<(Digest, Digest)>, q: set<(Digest, Digest)>)
    ensures PairInputs(p + q) == PairInputs(p) + PairInputs(q)
  {
  }

  predicate ShortTenant(e: Entry) {
    |e.tenant| < 0x1_0000_0000
  }

  lemma LeafDetermines(sha: Sha, a: Entry, b: Entry, inputs: set<seq<Byte>>)
    requires ShaCollisionFree(sha, inputs) && ShortTenant(a) && ShortTenant(b)
    requires LeafPreimage(a.Encode()) in inputs && LeafPreimage(b.Encode()) in inputs
    requires a.LeafHash(sha) == b.LeafHash(sha)
    ensures a == b
  {
    assert SameDigestSameString(sha, LeafPreimage(a.Encode()), LeafPreimage(b.Encode()));
    SameParts([0], a.Encode(), [0], b.Encode());
    EncodeInjective(a, b);
  }

  lemma InclusionBindsLeaf(sha: Sha, leaves: seq<Digest>, i: nat, s: nat, leaf: Digest, path: seq<Digest>,
                           end: Option<Digest>,
                           tree: set<(Digest, Digest)>, climb: set<(Digest, Digest)>, inputs: set<seq<Byte>>)
    requires i <= s && |leaves| == s + 1 && end == Climb(NodeHash(sha), i, s, leaf, path)
             && end == Some(LogRoot(sha, leaves))
    requires tree == TreePairs(NodeHash(sha), leaves) && climb == ClimbPairs(NodeHash(sha), i, s, leaf, path)
    requires ShaCollisionFree(sha, inputs) && PairInputs(tree) <= inputs && PairInputs(climb) <= inputs
    ensures leaf == leaves[i]
  {
    PairsUnionCollisionFree(sha, tree, climb, inputs);
    InclusionSound(NodeHash(sha), i, leaves, leaf, path);
  }

  lemma PairsOfTreeIn(sha: Sha, entries: seq<Entry>, leaves: seq<Digest>, pairs: set<(Digest, Digest)>,
                      inputs: set<seq<Byte>>)
    requires entries != [] && leaves == LeafHashes(sha, entries) && pairs == TreePairs(NodeHash(sha), leaves)
    requires TreeInputs(sha, entries) <= inputs
    ensures PairInputs(pairs) <= inputs
  {
  }

  lemma PairsOfClimbIn(sha: Sha, entry: Entry, leaf: Digest, proof: InclusionProof, i: nat, s: nat, path: seq<Digest>,
                       pairs: set<(Digest, Digest)>, inputs: set<seq<Byte>>)
    requires leaf == entry.LeafHash(sha) && proof == InclusionProof(i, s + 1, path) && i <= s
    requires pairs == ClimbPairs(NodeHash(sha), i, s, leaf, path) && InclusionInputs(sha, entry, proof) <= inputs
    ensures PairInputs(pairs) <= inputs
  {
  }

  lemma ClimbEnds(sha: Sha, entry: Entry, leaf: Digest, proof: InclusionProof, i: nat, s: nat, path: seq<Digest>,
                  root: Digest, end: Option<Digest>)
    requires leaf == entry.LeafHash(sha) && proof == InclusionProof(i, s + 1, path) && i <= s
    requires InclusionAccepted(sha, entry, proof, s + 1, root) && end == Climb(NodeHash(sha), i, s, leaf, path)
    ensures end == Some(root)
  {
  }

  lemma LeafInTree(sha: Sha, entries: seq<Entry>, i: nat, tree: set<seq<Byte>>)
    requires i < |entries| && tree == TreeInputs(sha, entries)
    ensures LeafPreimage(entries[i].Encode()) in tree
  {
    assert entries[i] in entries;
  }

  lemma AcceptedLeaf(sha: Sha, entries: seq<Entry>, leaves: seq<Digest>, entry: Entry, leaf: Digest,
                     proof: InclusionProof, inputs: set<seq<Byte>>)
    requires entries != [] && leaves == LeafHashes(sha, entries) && leaf == entry.LeafHash(sha)
    requires InclusionAccepted(sha, entry, proof, |leaves|, LogRoot(sha, leaves)) && ShaCollisionFree(sha, inputs)
    requires TreeInputs(sha, entries) <= inputs && InclusionInputs(sha, entry, proof) <= inputs
    ensures leaf == leaves[proof.leafIndex]
  {
    var i, s: nat, path, node := proof.leafIndex, |leaves| - 1, proof.auditPath, NodeHash(sha);
    var tree, climb, end := TreePairs(node, leaves), ClimbPairs(node, i, s, leaf, path), Climb(node, i, s, leaf, path);
    PairsOfTreeIn(sha, entries, leaves, tree, inputs);
    PairsOfClimbIn(sha, entry, leaf, proof, i, s, path, climb, inputs);
    ClimbEnds(sha, entry, leaf, proof, i, s, path, LogRoot(sha, leaves), end);
    InclusionBindsLeaf(sha, leaves, i, s, leaf, path, end, tree, climb, inputs);
  }

  /** An accepted inclusion proof shows the entry that the log really holds at
      that position. */
  lemma InclusionBinds(sha: Sha, entries: seq<Entry>, entry: Entry, proof: InclusionProof)
    requires entries != []
    requires InclusionAccepted(sha, entry, proof, |entries|, LogRoot(sha, LeafHashes(sha, entries)))
    requires ShaCollisionFree(sha, TreeInputs(sha, entries) + InclusionInputs(sha, entry, proof))
    requires ShortTenant(entry) && forall e :: e in entries ==> ShortTenant(e)
    ensures entry == entries[proof.leafIndex]
  {
    var i, inputs := proof.leafIndex, TreeInputs(sha, entries) + InclusionInputs(sha, entry, proof);
    AcceptedLeaf(sha, entries, LeafHashes(sha, entries), entry, entry.LeafHash(sha), proof, inputs);
    LeafInTree(sha, entries, i, TreeInputs(sha, entries));
    LeafDetermines(sha, entry, entries[i], inputs);
  }

  /** An accepted consistency proof shows that nothing was rewritten: the older
      entries are the first entries of the newer log. */
  lemma ConsistencyBinds(sha: Sha, past: seq<Entry>, now: seq<Entry>, proof: ConsistencyProof)
    requires past != [] && now != [] && |past| <= |now|
    requires var a, b := LeafHashes(sha, past), LeafHashes(sha, now);
             && HeadsConsistent(sha, Head(|past|, LogRoot(sha, a)), Head(|now|, LogRoot(sha, b)), proof)
             && ShaCollisionFree(sha, TreeInputs(sha, past) + TreeInputs(sha, now) + TreeInputs(sha, now[..|past|])
                                      + ConsistencyInputs(sha, Head(|past|, LogRoot(sha, a)),
                                          Head(|now|, LogRoot(sha, b)), proof))
    requires forall e :: e in past || e in now ==> ShortTenant(e)
    ensures past == now[..|past|]
  {
    var node, m, a, b := NodeHash(sha), |past|, LeafHashes(sha, past), LeafHashes(sha, now);
    var older, newer := Head(m, LogRoot(sha, a)), Head(|now|, LogRoot(sha, b));
    var inputs := TreeInputs(sha, past) + TreeInputs(sha, now) + TreeInputs(sha, now[..m])
                  + ConsistencyInputs(sha, older, newer, proof);
    assert b[..m] == LeafHashes(sha, now[..m]);
    PairsUnionCollisionFree(sha, TreePairs(node, b), ConsistencyPairs(node, m, |now|, proof.path, older.root), inputs);
    PairsUnionCollisionFree(sha, TreePairs(node, a), TreePairs(node, b[..m]), inputs);
    AppendOnly(node, a, b, proof.path);
    SameLeavesSameEntries(sha, past, now[..m], inputs);
  }

  lemma PairsUnionCollisionFree(sha: Sha, p: set<(Digest, Digest)>, q: set<(Digest, Digest)>, inputs: set<seq<Byte>>)
    requires ShaCollisionFree(sha, inputs) && PairInputs(p) <= inputs && PairInputs(q) <= inputs
    ensures CollisionFree(NodeHash(sha), p + q)
  {
    PairInputsUnion(p, q);
    PairsCollisionFree(sha, p + q, inputs);
  }

  lemma SameLeavesSameEntries(sha: Sha, a: seq<Entry>, b: seq<Entry>, inputs: set<seq<Byte>>)
    requires LeafHashes(sha, a) == LeafHashes(sha, b)
    requires ShaCollisionFree(sha, inputs) && TreeInputs(sha, a) <= inputs && TreeInputs(sha, b) <= inputs
    requires forall e :: e in a || e in b ==> ShortTenant(e)
    ensures a == b
  {
    assert |LeafHashes(sha, a)| == |LeafHashes(sha, b)|;
    forall i | 0 <= i < |a| ensures a[i] == b[i] {
      assert LeafHashes(sha, a)[i] == LeafHashes(sha, b)[i];
      assert a[i] in a && b[i] in b;
      assert LeafPreimage(a[i].Encode()) in TreeInputs(sha, a);
      assert LeafPreimage(b[i].Encode()) in TreeInputs(sha, b);
      LeafDetermines(sha, a[i], b[i], inputs);
    }
  }

  // ---------------------------------------------------------------- a root commits to the whole log, its size included

  /** Every string hashed to build the tree over `entries` is among `inputs`. */
  ghost predicate TreeIn(sha: Sha, entries: seq<Entry>, leaves: seq<Digest>, inputs: set<seq<Byte>>) {
    && |entries| >= 1 && leaves == LeafHashes(sha, entries)
    && (forall e :: e in entries ==> ShortTenant(e) && LeafPreimage(e.Encode()) in inputs)
    && PairInputs(TreePairs(NodeHash(sha), leaves)) <= inputs
  }

  lemma NodeInputsIn(tree: set<(Digest, Digest)>, tl: set<(Digest, Digest)>, tr: set<(Digest, Digest)>, l: Digest,
                     r: Digest, inputs: set<seq<Byte>>)
    requires PairInputs(tree) <= inputs && tl <= tree && tr <= tree && (l, r) in tree
    ensures NodePreimage(l, r) in inputs && PairInputs(tl) <= inputs && PairInputs(tr) <= inputs
  {
    MoreInputs(tl, tree);
    MoreInputs(tr, tree);
    assert NodePreimage((l, r).0, (l, r).1) in PairInputs(tree);
  }

  /** The two halves of a tree: their roots combine to its root, and all their inputs are its inputs. */
  lemma Halves(sha: Sha, leaves: seq<Digest>, k: nat, l: Digest, r: Digest, inputs: set<seq<Byte>>)
    requires |leaves| >= 2 && k == SplitPoint(|leaves|) && PairInputs(TreePairs(NodeHash(sha), leaves)) <= inputs
    requires l == RootHash(NodeHash(sha), leaves[..k]) && r == RootHash(NodeHash(sha), leaves[k..])
    ensures RootHash(NodeHash(sha), leaves) == NodeHash(sha)(l, r) && NodePreimage(l, r) in inputs
    ensures PairInputs(TreePairs(NodeHash(sha), leaves[..k])) <= inputs
    ensures PairInputs(TreePairs(NodeHash(sha), leaves[k..])) <= inputs
  {
    var node := NodeHash(sha);
    var tree, tl, tr := TreePairs(node, leaves), TreePairs(node, leaves[..k]), TreePairs(node, leaves[k..]);
    TreePairsOnce(node, leaves, k, tree, tl, tr, l, r);
    NodeInputsIn(tree, tl, tr, l, r, inputs);
  }

  lemma MoreInputs(pairs: set<(Digest, Digest)>, more: set<(Digest, Digest)>)
    requires pairs <= more
    ensures PairInputs(pairs) <= PairInputs(more)
  {
  }

  /** Both halves of a tree are trees. */
  lemma HalvesIn(sha: Sha, entries: seq<Entry>, leaves: seq<Digest>, inputs: set<seq<Byte>>, k: nat)
    requires TreeIn(sha, entries, leaves, inputs) && |leaves| >= 2 && k == SplitPoint(|leaves|)
    ensures TreeIn(sha, entries[..k], leaves[..k], inputs) && TreeIn(sha, entries[k..], leaves[k..], inputs)
  {
    Halves(sha, leaves, k, RootHash(NodeHash(sha), leaves[..k]), RootHash(NodeHash(sha), leaves[k..]), inputs);
    assert leaves[..k] == LeafHashes(sha, entries[..k]) && leaves[k..] == LeafHashes(sha, entries[k..]);
    assert forall e :: e in entries[..k] || e in entries[k..] ==> e in entries;
  }

  /** A leaf's hash is never an inner node's: the first byte tells them apart. */
  lemma LeafIsNotNode(sha: Sha, e: Entry, l: Digest, r: Digest, inputs: set<seq<Byte>>)
    requires ShaCollisionFree(sha, inputs) && LeafPreimage(e.Encode()) in inputs && NodePreimage(l, r) in inputs
    ensures e.LeafHash(sha) != NodeHash(sha)(l, r)
  {
    assert SameDigestSameString(sha, LeafPreimage(e.Encode()), NodePreimage(l, r));
    assert LeafPreimage(e.Encode())[0] == 0 && NodePreimage(l, r)[0] == 1;
  }

  lemma SameKind(sha: Sha, a: seq<Entry>, la: seq<Digest>, b: seq<Entry>, lb: seq<Digest>, inputs: set<seq<Byte>>)
    requires ShaCollisionFree(sha, inputs) && TreeIn(sha, a, la, inputs) && TreeIn(sha, b, lb, inputs)
    requires RootHash(NodeHash(sha), la) == RootHash(NodeHash(sha), lb)
    ensures |a| > 1 ==> |b| > 1
  {
    if |a| > 1 && |b| == 1 {
      var k, node := SplitPoint(|la|), NodeHash(sha);
      var l, r := RootHash(node, la[..k]), RootHash(node, la[k..]);
      Halves(sha, la, k, l, r, inputs);
      assert b[0] in b;
      LeafIsNotNode(sha, b[0], l, r, inputs);
    }
  }

  lemma SameHalves(sha: Sha, inputs: set<seq<Byte>>, l: Digest, r: Digest, l': Digest, r': Digest)
    requires ShaCollisionFree(sha, inputs) && NodePreimage(l, r) in inputs && NodePreimage(l', r') in inputs
    requires NodeHash(sha)(l, r) == NodeHash(sha)(l', r')
    ensures l == l' && r == r'
  {
    assert SameDigestSameString(sha, NodePreimage(l, r), NodePreimage(l', r'));
    SameHead([1], l, r, [1], l', r');
    SameParts(l, r, l', r');
  }

  /** The two halves of a tree of two or more entries, as lists of their own. */
  lemma Halved(sha: Sha, a: seq<Entry>, la: seq<Digest>, root: Digest, inputs: set<seq<Byte>>)
    returns (front: seq<Entry>, back: seq<Entry>, lf: seq<Digest>, lb: seq<Digest>, l: Digest, r: Digest)
    requires TreeIn(sha, a, la, inputs) && |a| >= 2 && root == RootHash(NodeHash(sha), la)
    ensures a == front + back && |front| < |a| && |back| < |a|
    ensures TreeIn(sha, front, lf, inputs) && TreeIn(sha, back, lb, inputs)
    ensures l == RootHash(NodeHash(sha), lf) && r == RootHash(NodeHash(sha), lb)
    ensures NodePreimage(l, r) in inputs && root == NodeHash(sha)(l, r)
  {
    var k := SplitPoint(|la|);
    front, back, lf, lb := a[..k], a[k..], la[..k], la[k..];
    l, r := RootHash(NodeHash(sha), lf), RootHash(NodeHash(sha), lb);
    Halves(sha, la, k, l, r, inputs);
    HalvesIn(sha, a, la, inputs, k);
  }

  lemma {:induction false} SameRootSameEntries(sha: Sha, a: seq<Entry>, la: seq<Digest>, b: seq<Entry>, lb: seq<Digest>,
                                               root: Digest, inputs: set<seq<Byte>>)
    requires ShaCollisionFree(sha, inputs) && TreeIn(sha, a, la, inputs) && TreeIn(sha, b, lb, inputs)
    requires root == RootHash(NodeHash(sha), la) && root == RootHash(NodeHash(sha), lb)
    ensures a == b
    decreases |a|
  {
    SameKind(sha, a, la, b, lb, inputs);
    SameKind(sha, b, lb, a, la, inputs);
    if |a| == 1 {
      assert a[0] in a && b[0] in b;
      LeafDetermines(sha, a[0], b[0], inputs);
    } else {
      var front, back, lf, lk, l, r := Halved(sha, a, la, root, inputs);
      var front', back', lf', lk', l', r' := Halved(sha, b, lb, root, inputs);
      SameHalves(sha, inputs, l, r, l', r');
      SameRootSameEntries(sha, front, lf, front', lf', l, inputs);
      SameRootSameEntries(sha, back, lk, back', lk', r, inputs);
    }
  }

  /** One root, one log: two logs of any sizes, empty ones included, with one root are the same log. */
  lemma RootCommits(sha: Sha, a: seq<Entry>, b: seq<Entry>)
    requires LogRoot(sha, LeafHashes(sha, a)) == LogRoot(sha, LeafHashes(sha, b))
    requires ShaCollisionFree(sha, TreeInputs(sha, a) + TreeInputs(sha, b) + {[]})
    requires forall e :: e in a || e in b ==> ShortTenant(e)
    ensures a == b
  {
    var inputs := TreeInputs(sha, a) + TreeInputs(sha, b) + {[]};
    if a == [] || b == [] {
      EmptyRootIsAlone(sha, a, inputs);
      EmptyRootIsAlone(sha, b, inputs);
    } else {
      var la, lb := LeafHashes(sha, a), LeafHashes(sha, b);
      AllIn(sha, a, inputs);
      AllIn(sha, b, inputs);
      SameRootSameEntries(sha, a, la, b, lb, LogRoot(sha, la), inputs);
    }
  }

  lemma AllIn(sha: Sha, entries: seq<Entry>, inputs: set<seq<Byte>>)
    requires entries != [] && TreeInputs(sha, entries) <= inputs && forall e :: e in entries ==> ShortTenant(e)
    ensures TreeIn(sha, entries, LeafHashes(sha, entries), inputs)
  {
    forall e | e in entries
      ensures LeafPreimage(e.Encode()) in inputs
    {
      assert LeafPreimage(e.Encode()) in TreeInputs(sha, entries);
    }
  }

  lemma EmptyRootIsAlone(sha: Sha, entries: seq<Entry>, inputs: set<seq<Byte>>)
    requires TreeInputs(sha, entries) <= inputs && [] in inputs && ShaCollisionFree(sha, inputs)
    requires forall e :: e in entries ==> ShortTenant(e)
    ensures LogRoot(sha, LeafHashes(sha, entries)) == sha([]) ==> entries == []
  {
    if entries != [] {
      var leaves, node := LeafHashes(sha, entries), NodeHash(sha);
      AllIn(sha, entries, inputs);
      if |entries| == 1 {
        assert entries[0] in entries;
        assert SameDigestSameString(sha, LeafPreimage(entries[0].Encode()), []);
      } else {
        var k := SplitPoint(|leaves|);
        var l, r := RootHash(node, leaves[..k]), RootHash(node, leaves[k..]);
        Halves(sha, leaves, k, l, r, inputs);
        assert SameDigestSameString(sha, NodePreimage(l, r), []);
      }
    }
  }

  /** Heads a monitor collected, each checked against the next. */
  ghost predicate CheckedChain(sha: Sha, heads: seq<Head>, proofs: seq<ConsistencyProof>) {
    |heads| == |proofs| + 1
    && forall i :: 0 <= i < |proofs| ==> HeadsConsistent(sha, heads[i], heads[i + 1], proofs[i])
  }

  /** `pairs` covers what the log combined at the size of each head and what
      checking the chain combined. */
  ghost predicate ChainPairsIn(sha: Sha, leaves: seq<Digest>, heads: seq<Head>, proofs: seq<ConsistencyProof>,
                               pairs: set<(Digest, Digest)>)
    requires |heads| == |proofs| + 1
  {
    && (forall i {:trigger heads[i]} :: 0 <= i < |heads| && 0 < heads[i].size <= |leaves| ==>
          TreePairs(NodeHash(sha), leaves[..heads[i].size]) <= pairs)
    && (forall i {:trigger proofs[i]} :: 0 <= i < |proofs| ==>
          ConsistencyPairs(NodeHash(sha), heads[i].size, heads[i + 1].size, proofs[i].path, heads[i].root) <= pairs)
  }

  /** A chain that ends at the log's root pins every head on it: each is the root
      the log really had at that size. */
  lemma {:induction false} ChainBinds(sha: Sha, leaves: seq<Digest>, heads: seq<Head>, proofs: seq<ConsistencyProof>,
                                      pairs: set<(Digest, Digest)>, i: nat)
    requires leaves != [] && CheckedChain(sha, heads, proofs)
    requires heads[|proofs|] == Head(|leaves|, LogRoot(sha, leaves))
    requires CollisionFree(NodeHash(sha), pairs) && ChainPairsIn(sha, leaves, heads, proofs, pairs)
    requires i <= |proofs|
    ensures 0 < heads[i].size <= |leaves| && heads[i].root == LogRoot(sha, leaves[..heads[i].size])
    decreases |proofs| - i
  {
    if i == |proofs| {
      assert leaves[..|leaves|] == leaves;
    } else {
      ChainBinds(sha, leaves, heads, proofs, pairs, i + 1);
      var node, m, now := NodeHash(sha), heads[i].size, leaves[..heads[i + 1].size];
      assert HeadsConsistent(sha, heads[i], heads[i + 1], proofs[i]);
      CollisionFreeSubset(node, pairs, TreePairs(node, now)
                                       + ConsistencyPairs(node, m, |now|, proofs[i].path, heads[i].root));
      ConsistencySound(node, m, now, proofs[i].path, heads[i].root);
      assert now[..m] == leaves[..m];
    }
  }

  lemma CollisionFreeSubset(node: Combine<Digest>, pairs: set<(Digest, Digest)>, some: set<(Digest, Digest)>)
    requires CollisionFree(node, pairs) && some <= pairs
    ensures CollisionFree(node, some)
  {
    forall a: Digest, b: Digest, c: Digest, d: Digest | (a, b) in some && (c, d) in some
      ensures NoClash(node, a, b, c, d)
    {
    }
  }

  /** Split views cannot be reconciled: two heads of one size that a monitor can
      both connect to one later log are the same head. */
  lemma NoSplitView(sha: Sha, leaves: seq<Digest>, a: Head, b: Head, pa: ConsistencyProof, pb: ConsistencyProof)
    requires leaves != [] && a.size == b.size
    requires var now := Head(|leaves|, LogRoot(sha, leaves));
             && HeadsConsistent(sha, a, now, pa) && HeadsConsistent(sha, b, now, pb)
    requires CollisionFree(NodeHash(sha), TreePairs(NodeHash(sha), leaves)
                                          + ConsistencyPairs(NodeHash(sha), a.size, |leaves|, pa.path, a.root))
    requires CollisionFree(NodeHash(sha), TreePairs(NodeHash(sha), leaves)
                                          + ConsistencyPairs(NodeHash(sha), b.size, |leaves|, pb.path, b.root))
    ensures a == b && pa == pb
  {
    ConsistencySound(NodeHash(sha), a.size, leaves, pa.path, a.root);
    ConsistencySound(NodeHash(sha), b.size, leaves, pb.path, b.root);
  }
}
