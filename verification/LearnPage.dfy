/**
 * The Merkle-tree demonstration of the learn page: a perfect tree over hex strings, repainted
 * level by level, and the inclusion walk in which the reader may overwrite any sibling.
 */
module LearnPage {
  import opened Common
  import opened Encoding

  /** A digest as 64 hex characters. */
  type Hex = s: string | |s| == 64 witness seq(64, _ => '0')

  type Hash = string -> Hex

  /** The levels of the tree, leaves first; the last level is the root alone. */
  type Nodes = seq<seq<Hex>>

  function Join(a: string, b: string): string {
    a + b
  }

  /** Each node above is the hash of the two below it, joined as text. */
  ghost predicate IsUp(hash: Hash, below: seq<Hex>, above: seq<Hex>) {
    |below| == 2 * |above| && forall k :: 0 <= k < |above| ==> above[k] == hash(Join(below[2 * k], below[2 * k + 1]))
  }

  ghost predicate IsTree(hash: Hash, nodes: Nodes) {
    && |nodes| >= 1 && |nodes[|nodes| - 1]| == 1
    && forall n :: 0 <= n < |nodes| - 1 ==> IsUp(hash, nodes[n], nodes[n + 1])
  }

  function Depth(nodes: Nodes): nat
    requires |nodes| >= 1
  {
    |nodes| - 1
  }

  /** The index shifted right: where the path from leaf `i` runs, `n` levels up. */
  function Shift(i: nat, n: nat): nat {
    if n == 0 then i else Shift(i, n - 1) / 2
  }

  /** The pair partner: the index with its lowest bit flipped. */
  function Partner(i: nat): nat {
    if i % 2 == 0 then i + 1 else i - 1
  }

  lemma PairInLevel(below: int, above: int, p: nat)
    requires below == 2 * above && p < below
    ensures Partner(p) < below && p / 2 < above
  {
  }

  lemma {:induction false} PathInLevel(hash: Hash, nodes: Nodes, i: nat, n: nat)
    requires IsTree(hash, nodes) && i < |nodes[0]| && n < |nodes|
    ensures Shift(i, n) < |nodes[n]|
    ensures n < Depth(nodes) ==> Partner(Shift(i, n)) < |nodes[n]|
  {
    if n > 0 {
      PathInLevel(hash, nodes, i, n - 1);
      assert IsUp(hash, nodes[n - 1], nodes[n - 1 + 1]);
      PairInLevel(|nodes[n - 1]|, |nodes[n]|, Shift(i, n - 1));
    }
    if n < Depth(nodes) {
      assert IsUp(hash, nodes[n], nodes[n + 1]);
      PairInLevel(|nodes[n]|, |nodes[n + 1]|, Shift(i, n));
    }
  }

  /** The node on the path `n` levels up. */
  ghost function OnPath(hash: Hash, nodes: Nodes, i: nat, n: nat): Hex
    requires IsTree(hash, nodes) && i < |nodes[0]| && n < |nodes|
  {
    PathInLevel(hash, nodes, i, n);
    nodes[n][Shift(i, n)]
  }

  /** Its sibling in the tree. */
  ghost function SiblingOf(hash: Hash, nodes: Nodes, i: nat, n: nat): Hex
    requires IsTree(hash, nodes) && i < |nodes[0]| && n < Depth(nodes)
  {
    PathInLevel(hash, nodes, i, n);
    nodes[n][Partner(Shift(i, n))]
  }

  /** The text hashed at one step: the index's parity decides the side. */
  function Joined(p: nat, carry: string, sib: string): string {
    if p % 2 == 0 then Join(carry, sib) else Join(sib, carry)
  }

  /** The walk from `n` levels up, with the supplied siblings. */
  function Climb(hash: Hash, i: nat, n: nat, carry: Hex, sibs: seq<string>): Hex
    requires n <= |sibs|
    decreases |sibs| - n
  {
    if n == |sibs| then carry else Climb(hash, i, n + 1, hash(Joined(Shift(i, n), carry, sibs[n])), sibs)
  }

  // ---------------------------------------------------------------- the climb

  lemma ParentIsJoined(hash: Hash, below: seq<Hex>, above: seq<Hex>, p: nat)
    requires IsUp(hash, below, above) && p < |below|
    ensures p / 2 < |above| && Partner(p) < |below|
    ensures above[p / 2] == hash(Joined(p, below[p], below[Partner(p)]))
    ensures Joined(p, below[p], below[Partner(p)]) == Join(below[2 * (p / 2)], below[2 * (p / 2) + 1])
  {
    PairInLevel(|below|, |above|, p);
  }

  /** A node on the path is the hash of the one below joined with its sibling. */
  lemma PathStep(hash: Hash, nodes: Nodes, i: nat, n: nat)
    requires IsTree(hash, nodes) && i < |nodes[0]| && n < Depth(nodes)
    ensures OnPath(hash, nodes, i, n + 1) ==
            hash(Joined(Shift(i, n), OnPath(hash, nodes, i, n), SiblingOf(hash, nodes, i, n)))
  {
    PathInLevel(hash, nodes, i, n);
    assert IsUp(hash, nodes[n], nodes[n + 1]);
    ParentIsJoined(hash, nodes[n], nodes[n + 1], Shift(i, n));
  }

  ghost predicate OwnSiblings(hash: Hash, nodes: Nodes, i: nat, n: nat, sibs: seq<string>)
    requires IsTree(hash, nodes) && i < |nodes[0]| && |sibs| == Depth(nodes)
  {
    forall m :: n <= m < |sibs| ==> sibs[m] == SiblingOf(hash, nodes, i, m)
  }

  /** With the tree's own siblings the climb ends at the root, from any leaf of a tree of any depth. */
  lemma {:induction false} ClimbReachesRoot(hash: Hash, nodes: Nodes, i: nat, n: nat, sibs: seq<string>)
    requires IsTree(hash, nodes) && i < |nodes[0]| && n <= |sibs| == Depth(nodes)
    requires OwnSiblings(hash, nodes, i, n, sibs)
    ensures Climb(hash, i, n, OnPath(hash, nodes, i, n), sibs) == nodes[Depth(nodes)][0]
    decreases |sibs| - n
  {
    if n == |sibs| {
      PathInLevel(hash, nodes, i, n);
    } else {
      PathStep(hash, nodes, i, n);
      ClimbReachesRoot(hash, nodes, i, n + 1, sibs);
    }
  }

  ghost predicate NoClash(hash: Hash, x: string, y: string) {
    hash(x) == hash(y) ==> x == y
  }

  ghost predicate CollisionFree(hash: Hash, texts: set<string>) {
    forall x, y {:trigger NoClash(hash, x, y)} :: x in texts && y in texts ==> NoClash(hash, x, y)
  }

  /** Every text hashed to build the tree is among `texts`. */
  ghost predicate TreeTextsIn(hash: Hash, nodes: Nodes, texts: set<string>)
    requires IsTree(hash, nodes)
  {
    forall n :: 0 <= n < Depth(nodes) ==> LevelTextsIn(nodes[n], texts)
  }

  ghost predicate LevelTextsIn(level: seq<Hex>, texts: set<string>) {
    forall k :: 0 <= 2 * k < |level| - 1 ==> Join(level[2 * k], level[2 * k + 1]) in texts
  }

  /** Every text hashed by the walk is among `texts`. */
  ghost predicate ClimbTextsIn(hash: Hash, i: nat, n: nat, carry: Hex, sibs: seq<string>, texts: set<string>)
    requires n <= |sibs|
    decreases |sibs| - n
  {
    n == |sibs| ||
    (var text := Joined(Shift(i, n), carry, sibs[n]);
     text in texts && ClimbTextsIn(hash, i, n + 1, hash(text), sibs, texts))
  }

  /** Digests have one length, so a joined text has one reading whatever the sibling's length. */
  lemma JoinedSplits(p: nat, c: Hex, s: string, d: Hex, t: string)
    requires Joined(p, c, s) == Joined(p, d, t)
    ensures c == d && s == t
  {
    if p % 2 == 0 {
      SameParts(c, s, d, t);
    } else {
      assert |Joined(p, c, s)| == |s| + 64 && |Joined(p, d, t)| == |t| + 64;
      SameParts(s, c, t, d);
    }
  }

  lemma PathTextIn(hash: Hash, nodes: Nodes, i: nat, n: nat, texts: set<string>)
    requires IsTree(hash, nodes) && i < |nodes[0]| && n < Depth(nodes) && TreeTextsIn(hash, nodes, texts)
    ensures Joined(Shift(i, n), OnPath(hash, nodes, i, n), SiblingOf(hash, nodes, i, n)) in texts
  {
    PathInLevel(hash, nodes, i, n);
    var p := Shift(i, n);
    assert IsUp(hash, nodes[n], nodes[n + 1]);
    ParentIsJoined(hash, nodes[n], nodes[n + 1], p);
    assert LevelTextsIn(nodes[n], texts);
    assert 0 <= 2 * (p / 2) < |nodes[n]| - 1;
  }

  /** A walk that ends at the root started at the leaf's digest and used the tree's own siblings. */
  lemma {:induction false} OnlyOwnSiblingsReachRoot(hash: Hash, nodes: Nodes, i: nat, n: nat, carry: Hex,
                                                    sibs: seq<string>, texts: set<string>)
    requires IsTree(hash, nodes) && i < |nodes[0]| && n <= |sibs| == Depth(nodes)
    requires Climb(hash, i, n, carry, sibs) == nodes[Depth(nodes)][0]
    requires CollisionFree(hash, texts) && TreeTextsIn(hash, nodes, texts)
    requires ClimbTextsIn(hash, i, n, carry, sibs, texts)
    ensures carry == OnPath(hash, nodes, i, n) && OwnSiblings(hash, nodes, i, n, sibs)
    decreases |sibs| - n
  {
    if n == |sibs| {
      PathInLevel(hash, nodes, i, n);
    } else {
      var text := Joined(Shift(i, n), carry, sibs[n]);
      var own := Joined(Shift(i, n), OnPath(hash, nodes, i, n), SiblingOf(hash, nodes, i, n));
      OnlyOwnSiblingsReachRoot(hash, nodes, i, n + 1, hash(text), sibs, texts);
      PathStep(hash, nodes, i, n);
      PathTextIn(hash, nodes, i, n, texts);
      assert NoClash(hash, text, own);
      JoinedSplits(Shift(i, n), carry, sibs[n], OnPath(hash, nodes, i, n), SiblingOf(hash, nodes, i, n));
    }
  }

  // ---------------------------------------------------------------- the widget

  function Pow2(depth: nat): (p: nat)
    ensures p >= 1
  {
    if depth == 0 then 1 else 2 * Pow2(depth - 1)
  }

  /** The next level up. */
  method PaintUp(hash: Hash, level: seq<Hex>) returns (above: seq<Hex>)
    requires |level| % 2 == 0
    ensures IsUp(hash, level, above)
  {
    above := [];
    var k := 0;
    while 2 * k < |level|
      invariant 0 <= 2 * k <= |level| && |above| == k
      invariant forall j :: 0 <= j < k ==> above[j] == hash(Join(level[2 * j], level[2 * j + 1]))
    {
      above := above + [hash(Join(level[2 * k], level[2 * k + 1]))];
      k := k + 1;
    }
  }

  /** The siblings used: the reader's where there is one. */
  ghost predicate Supplies(hash: Hash, nodes: Nodes, i: nat, tampered: seq<Option<string>>, sibs: seq<string>)
    requires IsTree(hash, nodes) && i < |nodes[0]| && |tampered| == Depth(nodes)
  {
    |sibs| == |tampered| &&
    forall n :: 0 <= n < |sibs| ==>
      sibs[n] == if tampered[n].Some? then tampered[n].value else SiblingOf(hash, nodes, i, n)
  }

  ghost function SuppliedAt(hash: Hash, nodes: Nodes, i: nat, tampered: seq<Option<string>>, n: nat): string
    requires IsTree(hash, nodes) && i < |nodes[0]| && n < |tampered| == Depth(nodes)
  {
    if tampered[n].Some? then tampered[n].value else
      var sib: string := SiblingOf(hash, nodes, i, n);
      sib
  }

  ghost function Supplied(hash: Hash, nodes: Nodes, i: nat, tampered: seq<Option<string>>): (sibs: seq<string>)
    requires IsTree(hash, nodes) && i < |nodes[0]| && |tampered| == Depth(nodes)
    ensures Supplies(hash, nodes, i, tampered, sibs)
  {
    seq(|tampered|, n requires 0 <= n < |tampered| => SuppliedAt(hash, nodes, i, tampered, n))
  }

  class Widget {
    const hash: Hash
    const depth: nat
    var nodes: Nodes

    ghost predicate Valid()
      reads this
    {
      |nodes| == depth + 1 && IsTree(hash, nodes)
    }

    constructor (hash: Hash, depth: nat, entries: seq<string>)
      requires |entries| == Pow2(depth)
      ensures Valid() && this.hash == hash && this.depth == depth
      ensures |nodes[0]| == |entries| && forall i :: 0 <= i < |entries| ==> nodes[0][i] == hash(entries[i])
    {
      this.hash, this.depth, nodes := hash, depth, [];
      new;
      Recompute(entries);
    }

    /** Hashes the entries and repaints every level up to the root. */
    method Recompute(entries: seq<string>)
      requires |entries| == Pow2(depth)
      modifies this
      ensures Valid()
      ensures |nodes[0]| == |entries| && forall i :: 0 <= i < |entries| ==> nodes[0][i] == hash(entries[i])
    {
      var leaves: seq<Hex> := seq(|entries|, i requires 0 <= i < |entries| => hash(entries[i]));
      var painted := [leaves];
      for n := 0 to depth
        invariant |painted| == n + 1 && painted[0] == leaves
        invariant |painted[n]| == Pow2(depth - n)
        invariant forall m :: 0 <= m < n ==> IsUp(hash, painted[m], painted[m + 1])
      {
        var above := PaintUp(hash, painted[n]);
        painted := painted + [above];
      }
      nodes := painted;
    }

    /**
     * Walks up from an entry with each sibling taken from the tree or, where the reader typed
     * one, from the reader; the verdict compares the result with the published root.
     */
    method UpdateSteps(i: nat, tampered: seq<Option<string>>)
      returns (carry: Hex, matched: bool, ghost sibs: seq<string>)
      requires Valid() && i < |nodes[0]| && |tampered| == depth
      ensures Supplies(hash, nodes, i, tampered, sibs)
      ensures carry == Climb(hash, i, 0, nodes[0][i], sibs)
      ensures matched <==> carry == nodes[depth][0]
    {
      sibs := Supplied(hash, nodes, i, tampered);
      carry := nodes[0][i];
      var at: nat := i;
      for n := 0 to depth
        invariant at == Shift(i, n)
        invariant Climb(hash, i, 0, nodes[0][i], sibs) == Climb(hash, i, n, carry, sibs)
      {
        PathInLevel(hash, nodes, i, n);
        var live := nodes[n][Partner(at)];
        var sib: string := if tampered[n].Some? then tampered[n].value else live;
        assert sib == sibs[n];
        carry := hash(if at % 2 == 0 then Join(carry, sib) else Join(sib, carry));
        at := at / 2;
      }
      matched := carry == nodes[depth][0];
    }
  }

  /**
   * The walk is judged good exactly when every sibling the reader typed is the tree's own,
   * barring a collision among the texts hashed.
   */
  lemma VerdictIsExact(hash: Hash, nodes: Nodes, i: nat, tampered: seq<Option<string>>, sibs: seq<string>,
                       texts: set<string>)
    requires IsTree(hash, nodes) && i < |nodes[0]| && |tampered| == Depth(nodes)
    requires Supplies(hash, nodes, i, tampered, sibs)
    requires CollisionFree(hash, texts) && TreeTextsIn(hash, nodes, texts)
    requires ClimbTextsIn(hash, i, 0, nodes[0][i], sibs, texts)
    ensures Climb(hash, i, 0, nodes[0][i], sibs) == nodes[Depth(nodes)][0] <==>
            forall n :: 0 <= n < |tampered| && tampered[n].Some? ==> tampered[n].value == SiblingOf(hash, nodes, i, n)
  {
    assert OnPath(hash, nodes, i, 0) == nodes[0][i];
    if Climb(hash, i, 0, nodes[0][i], sibs) == nodes[Depth(nodes)][0] {
      OnlyOwnSiblingsReachRoot(hash, nodes, i, 0, nodes[0][i], sibs, texts);
    }
    if forall n :: 0 <= n < |tampered| && tampered[n].Some? ==> tampered[n].value == SiblingOf(hash, nodes, i, n) {
      assert OwnSiblings(hash, nodes, i, 0, sibs);
      ClimbReachesRoot(hash, nodes, i, 0, sibs);
    }
  }
}
