/** The RFC 6962 Merkle tree of the transparency log: the recursive tree hash,
    inclusion and consistency paths, and the two bit-twiddling verifiers, which
    walk the tree level by level and never see it.

    The tree is generic in its hashes: `node` combines two child hashes.
    Soundness is stated relative to the pairs that were actually combined: a
    verifier can be fooled only by two different pairs, combined by the tree or
    by the verifier, with one hash.
 */
module Merkle {
  import opened Common

  type Combine<!H> = (H, H) -> H

  // ---------------------------------------------------------------- the recursive tree

  predicate IsPowerOfTwo(n: nat) {
    n == 1 || (n > 0 && n % 2 == 0 && IsPowerOfTwo(n / 2))
  }

  /** Largest power of two strictly below `n`, by halving. */
  function SplitPoint(n: nat): (k: nat)
    requires n >= 2
    ensures k < n <= 2 * k
    ensures n > 2 ==> k % 2 == 0
  {
    if n == 2 then 1 else 2 * SplitPoint((n + 1) / 2)
  }

  lemma {:induction false} SplitIsPower(n: nat)
    requires n >= 2
    ensures IsPowerOfTwo(SplitPoint(n))
  {
    if n > 2 {
      SplitIsPower((n + 1) / 2);
    }
  }

  lemma {:induction false} PowerOfTwoUnique(a: nat, b: nat, n: nat)
    requires IsPowerOfTwo(a) && a < n <= 2 * a
    requires IsPowerOfTwo(b) && b < n <= 2 * b
    ensures a == b
  {
    if a != 1 && b != 1 {
      PowerOfTwoUnique(a / 2, b / 2, (n + 1) / 2);
    }
  }

  lemma DoubleIsPower(k: nat)
    requires IsPowerOfTwo(k)
    ensures IsPowerOfTwo(2 * k)
  {
    assert 2 * k % 2 == 0 && 2 * k / 2 == k;
  }

  /** The doubling loop finds the split point. */
  method LargestPowerOfTwoBelow(n: nat) returns (k: nat)
    requires n >= 2
    ensures k == SplitPoint(n)
  {
    k := 1;
    while 2 * k < n
      invariant IsPowerOfTwo(k) && k < n
    {
      DoubleIsPower(k);
      k := 2 * k;
    }
    SplitIsPower(n);
    var split := SplitPoint(n);
    PowerOfTwoUnique(k, split, n);
  }

  /** The Merkle tree hash of a non-empty list of leaf hashes. */
  function RootHash<H>(node: Combine<H>, leaves: seq<H>): H
    requires |leaves| >= 1
  {
    if |leaves| == 1 then leaves[0]
    else
      var k := SplitPoint(|leaves|);
      node(RootHash(node, leaves[..k]), RootHash(node, leaves[k..]))
  }

  /** Siblings of leaf `index`, bottom-up. */
  function InclusionPath<H>(node: Combine<H>, index: nat, leaves: seq<H>): seq<H>
    requires index < |leaves|
    decreases |leaves|
  {
    if |leaves| == 1 then []
    else
      var k := SplitPoint(|leaves|);
      if index < k then
        InclusionPath(node, index, leaves[..k]) + [RootHash(node, leaves[k..])]
      else
        InclusionPath(node, index - k, leaves[k..]) + [RootHash(node, leaves[..k])]
  }

  /** `whole` says that the current subtree is the whole older tree, whose root
      the verifier already holds. */
  function Subproof<H>(node: Combine<H>, m: nat, leaves: seq<H>, whole: bool): seq<H>
    requires 0 < m <= |leaves|
    decreases |leaves|
  {
    if m == |leaves| then
      if whole then [] else [RootHash(node, leaves)]
    else
      var k := SplitPoint(|leaves|);
      if m <= k then
        Subproof(node, m, leaves[..k], whole) + [RootHash(node, leaves[k..])]
      else
        Subproof(node, m - k, leaves[k..], false) + [RootHash(node, leaves[..k])]
  }

  function ConsistencyPath<H>(node: Combine<H>, first: nat, leaves: seq<H>): seq<H>
    requires 0 < first <= |leaves|
  {
    Subproof(node, first, leaves, true)
  }

  /** Every pair of hashes that `RootHash` combines. */
  ghost function TreePairs<H>(node: Combine<H>, leaves: seq<H>): set<(H, H)>
    requires |leaves| >= 1
  {
    if |leaves| == 1 then {}
    else
      var k := SplitPoint(|leaves|);
      TreePairs(node, leaves[..k]) + TreePairs(node, leaves[k..])
      + {(RootHash(node, leaves[..k]), RootHash(node, leaves[k..]))}
  }

  lemma TreePairsOnce<H>(node: Combine<H>, leaves: seq<H>, k: nat, tree: set<(H, H)>, tl: set<(H, H)>, tr: set<(H, H)>,
                         l: H, r: H)
    requires |leaves| >= 2 && k == SplitPoint(|leaves|) && tree == TreePairs(node, leaves)
    requires tl == TreePairs(node, leaves[..k]) && tr == TreePairs(node, leaves[k..])
    requires l == RootHash(node, leaves[..k]) && r == RootHash(node, leaves[k..])
    ensures tl <= tree && tr <= tree && (l, r) in tree && RootHash(node, leaves) == node(l, r)
  {
  }

  ghost predicate NoClash<H>(node: Combine<H>, a: H, b: H, c: H, d: H) {
    node(a, b) == node(c, d) ==> a == c && b == d
  }

  /** No two different pairs of `pairs` combine to one hash. */
  ghost predicate CollisionFree<H(!new)>(node: Combine<H>, pairs: set<(H, H)>) {
    forall a, b, c, d {:trigger NoClash(node, a, b, c, d)} ::
      (a, b) in pairs && (c, d) in pairs ==> NoClash(node, a, b, c, d)
  }

  // ---------------------------------------------------------------- the same tree, one level at a time

  /** One level up: adjacent hashes are paired and an odd last one is promoted. */
  function Up<H>(node: Combine<H>, level: seq<H>): (up: seq<H>)
    ensures |up| == (|level| + 1) / 2
  {
    if |level| < 2 then level else [node(level[0], level[1])] + Up(node, level[2..])
  }

  lemma {:induction false} UpElement<H>(node: Combine<H>, level: seq<H>, up: seq<H>, j: nat)
    requires up == Up(node, level) && j < |up|
    ensures up[j] == if 2 * j + 1 < |level| then node(level[2 * j], level[2 * j + 1]) else level[2 * j]
  {
    if j > 0 {
      UpElement(node, level[2..], up[1..], j - 1);
    }
  }

  lemma {:induction false} UpSplit<H>(node: Combine<H>, level: seq<H>, up: seq<H>, k: nat, j: nat)
    requires k == 2 * j <= |level| && up == Up(node, level)
    ensures up[..j] == Up(node, level[..k]) && up[j..] == Up(node, level[k..])
  {
    if j == 0 {
      assert level[..0] == [] && level[0..] == level;
    } else {
      var rest, above := level[2..], up[1..];
      UpSplit(node, rest, above, k - 2, j - 1);
      assert level[..k][2..] == rest[..k - 2] && level[k..] == rest[k - 2..];
      assert up[..j] == [up[0]] + above[..j - 1] && up[j..] == above[j - 1..];
    }
  }

  /** A level of three or more splits at an even point, and the level above it
      splits at half that point. */
  lemma UpSplitPoint<H>(node: Combine<H>, level: seq<H>) returns (k: nat, up: seq<H>)
    requires |level| >= 3
    ensures 2 <= k < |level| && k == SplitPoint(|level|) && k % 2 == 0
    ensures up == Up(node, level) && |up| >= 2 && SplitPoint(|up|) == k / 2
    ensures up[..k / 2] == Up(node, level[..k]) && up[k / 2..] == Up(node, level[k..])
  {
    k, up := SplitPoint(|level|), Up(node, level);
    UpSplit(node, level, up, k, k / 2);
  }

  lemma UpSingle<H>(node: Combine<H>, level: seq<H>)
    requires |level| == 1
    ensures Up(node, level) == level
  {
  }

  lemma UpPair<H>(node: Combine<H>, leaves: seq<H>)
    requires |leaves| == 2
    ensures Up(node, leaves) == [node(leaves[0], leaves[1])]
  {
  }

  /** Promotion and pairing leave the root alone: the bottom-up tree is the
      recursive one. */
  lemma {:induction false} UpKeepsRoot<H>(node: Combine<H>, leaves: seq<H>)
    requires |leaves| >= 1
    ensures RootHash(node, Up(node, leaves)) == RootHash(node, leaves)
    decreases |leaves|
  {
    if |leaves| == 1 {
      UpSingle(node, leaves);
    } else if |leaves| == 2 {
      UpPair(node, leaves);
    } else {
      var k, up := UpSplitPoint(node, leaves);
      calc {
        RootHash(node, up);
        node(RootHash(node, up[..k / 2]), RootHash(node, up[k / 2..]));
        { UpKeepsRoot(node, leaves[..k]); UpKeepsRoot(node, leaves[k..]); }
        node(RootHash(node, leaves[..k]), RootHash(node, leaves[k..]));
        RootHash(node, leaves);
      }
    }
  }

  /** Both halves of a level, what stands above them, and the root of the one a path leaves behind. */
  lemma UpHalves<H>(node: Combine<H>, leaves: seq<H>, up: seq<H>, k: nat, intoRight: bool)
    returns (j: nat, left: seq<H>, right: seq<H>, low: seq<H>, high: seq<H>, r: H)
    requires |leaves| >= 3 && k == SplitPoint(|leaves|) && up == Up(node, leaves)
    ensures k == 2 * j && |up| >= 2 && j == SplitPoint(|up|)
    ensures left == leaves[..k] && right == leaves[k..] && low == up[..j] && high == up[j..]
    ensures low == Up(node, left) && high == Up(node, right)
    ensures r == (if intoRight then RootHash(node, left) else RootHash(node, right))
    ensures r == (if intoRight then RootHash(node, low) else RootHash(node, high))
  {
    j := k / 2;
    left, right, low, high := leaves[..k], leaves[k..], up[..j], up[j..];
    UpSplit(node, leaves, up, k, j);
    UpKeepsRoot(node, if intoRight then left else right);
    r := RootHash(node, if intoRight then left else right);
  }

  /** The sibling that leaf `index` has at its own level, if it has one. */
  function Sibling<H>(index: nat, level: seq<H>): seq<H>
    requires index < |level|
  {
    if index % 2 == 1 then [level[index - 1]]
    else if index + 1 < |level| then [level[index + 1]]
    else []
  }

  lemma PathIntoLeft<H>(node: Combine<H>, index: nat, leaves: seq<H>, k: nat, path: seq<H>, p: seq<H>, r: H)
    requires |leaves| >= 2 && k == SplitPoint(|leaves|) && index < k && path == InclusionPath(node, index, leaves)
    requires p == InclusionPath(node, index, leaves[..k]) && r == RootHash(node, leaves[k..])
    ensures path == p + [r]
  {
  }

  lemma PathIntoRight<H>(node: Combine<H>, index: nat, leaves: seq<H>, k: nat, i: nat, path: seq<H>, p: seq<H>, r: H)
    requires |leaves| >= 2 && k == SplitPoint(|leaves|) && k + i == index < |leaves|
             && path == InclusionPath(node, index, leaves)
    requires p == InclusionPath(node, i, leaves[k..]) && r == RootHash(node, leaves[..k])
    ensures path == p + [r]
  {
  }

  lemma SiblingInLeft<H>(index: nat, level: seq<H>, k: nat, j: nat, left: seq<H>, sibling: seq<H>)
    requires index < k == 2 * j <= |level| && left == level[..k] && sibling == Sibling(index, level)
    ensures sibling == Sibling(index, left)
  {
  }

  lemma SiblingInRight<H>(index: nat, i: nat, level: seq<H>, k: nat, j: nat, right: seq<H>, sibling: seq<H>)
    requires k + i == index < |level| && k == 2 * j && right == level[k..] && sibling == Sibling(index, level)
    ensures sibling == Sibling(i, right)
  {
  }

  lemma PathOfPair<H>(node: Combine<H>, index: nat, leaves: seq<H>, up: seq<H>, path: seq<H>, above: seq<H>,
                      sibling: seq<H>)
    requires |leaves| == 2 && index < 2 && up == Up(node, leaves) && sibling == Sibling(index, leaves)
    requires path == InclusionPath(node, index, leaves) && above == InclusionPath(node, 0, up)
    ensures path == sibling + above
  {
    UpPair(node, leaves);
    assert SplitPoint(2) == 1;
    if index == 0 {
      PathIntoLeft(node, 0, leaves, 1, path, [], leaves[1]);
    } else {
      PathIntoRight(node, 1, leaves, 1, 0, path, [], leaves[0]);
    }
  }

  /** A hash appended on both sides of `s == seed + p`. */
  lemma SeedJoin<H>(seed: seq<H>, p: seq<H>, r: H, s: seq<H>, sub: seq<H>, path: seq<H>)
    requires s == seed + p && sub == s + [r] && path == p + [r]
    ensures sub == seed + path
  {
  }

  lemma PathOfOne<H>(node: Combine<H>, leaves: seq<H>, up: seq<H>, path: seq<H>, above: seq<H>, sibling: seq<H>)
    requires |leaves| == 1 && up == Up(node, leaves) && sibling == Sibling(0, leaves)
    requires path == InclusionPath(node, 0, leaves) && above == InclusionPath(node, 0, up)
    ensures path == sibling + above
  {
  }

  lemma PathUpLeft<H>(node: Combine<H>, index: nat, q: nat, leaves: seq<H>, up: seq<H>, k: nat, j: nat, path: seq<H>,
                      above: seq<H>, p: seq<H>, a: seq<H>, r: H, sibling: seq<H>)
    requires |leaves| >= 2 && |up| >= 2 && k == SplitPoint(|leaves|) && j == SplitPoint(|up|) && index < k && q < j
    requires path == InclusionPath(node, index, leaves) && above == InclusionPath(node, q, up)
    requires p == InclusionPath(node, index, leaves[..k]) && a == InclusionPath(node, q, up[..j])
    requires r == RootHash(node, leaves[k..]) && r == RootHash(node, up[j..]) && p == sibling + a
    ensures path == sibling + above
  {
    PathIntoLeft(node, index, leaves, k, path, p, r);
    PathIntoLeft(node, q, up, j, above, a, r);
    SeedJoin(sibling, a, r, p, path, above);
  }

  lemma PathUpRight<H>(node: Combine<H>, index: nat, q: nat, i: nat, o: nat, leaves: seq<H>, up: seq<H>, k: nat, j: nat,
                       path: seq<H>, above: seq<H>, p: seq<H>, a: seq<H>, r: H, sibling: seq<H>)
    requires |leaves| >= 2 && |up| >= 2 && k == SplitPoint(|leaves|) && j == SplitPoint(|up|)
    requires k + i == index < |leaves| && j + o == q < |up|
    requires path == InclusionPath(node, index, leaves) && above == InclusionPath(node, q, up)
    requires p == InclusionPath(node, i, leaves[k..]) && a == InclusionPath(node, o, up[j..])
    requires r == RootHash(node, leaves[..k]) && r == RootHash(node, up[..j]) && p == sibling + a
    ensures path == sibling + above
  {
    PathIntoRight(node, index, leaves, k, i, path, p, r);
    PathIntoRight(node, q, up, j, o, above, a, r);
    SeedJoin(sibling, a, r, p, path, above);
  }

  lemma {:induction false} PathByLevelLeft<H>(node: Combine<H>, index: nat, q: nat, leaves: seq<H>, up: seq<H>, k: nat,
                                              path: seq<H>, above: seq<H>, sibling: seq<H>)
    requires |leaves| >= 3 && k == SplitPoint(|leaves|) && 2 * q <= index <= 2 * q + 1 && index < k
             && up == Up(node, leaves)
    requires path == InclusionPath(node, index, leaves) && above == InclusionPath(node, q, up)
    requires sibling == Sibling(index, leaves)
    ensures path == sibling + above
    decreases |leaves|, 0
  {
    var j, left, right, low, high, r := UpHalves(node, leaves, up, k, false);
    var p, a := InclusionPath(node, index, left), InclusionPath(node, q, low);
    SiblingInLeft(index, leaves, k, j, left, sibling);
    PathByLevel(node, index, q, left, low, p, a, sibling);
    PathUpLeft(node, index, q, leaves, up, k, j, path, above, p, a, r, sibling);
  }

  lemma {:induction false} PathByLevelRight<H>(node: Combine<H>, index: nat, q: nat, leaves: seq<H>, up: seq<H>, k: nat,
                                               path: seq<H>, above: seq<H>, sibling: seq<H>)
    requires |leaves| >= 3 && k == SplitPoint(|leaves|) && 2 * q <= index <= 2 * q + 1 && k <= index < |leaves|
    requires up == Up(node, leaves) && path == InclusionPath(node, index, leaves) && above == InclusionPath(node, q, up)
    requires sibling == Sibling(index, leaves)
    ensures path == sibling + above
    decreases |leaves|, 0
  {
    var j, left, right, low, high, r := UpHalves(node, leaves, up, k, true);
    var i: nat, o: nat := index - k, q - j;
    var p, a := InclusionPath(node, i, right), InclusionPath(node, o, high);
    SiblingInRight(index, i, leaves, k, j, right, sibling);
    PathByLevel(node, i, o, right, high, p, a, sibling);
    PathUpRight(node, index, q, i, o, leaves, up, k, j, path, above, p, a, r, sibling);
  }

  /** An inclusion path is the sibling on each level, from the leaves up. */
  lemma {:induction false} PathByLevel<H>(node: Combine<H>, index: nat, q: nat, leaves: seq<H>, up: seq<H>,
                                          path: seq<H>, above: seq<H>, sibling: seq<H>)
    requires 2 * q <= index <= 2 * q + 1 && index < |leaves| && up == Up(node, leaves)
    requires path == InclusionPath(node, index, leaves) && above == InclusionPath(node, q, up)
    requires sibling == Sibling(index, leaves)
    ensures path == sibling + above
    decreases |leaves|, 1
  {
    if |leaves| == 1 {
      PathOfOne(node, leaves, up, path, above, sibling);
    } else if |leaves| == 2 {
      PathOfPair(node, index, leaves, up, path, above, sibling);
    } else {
      var k := SplitPoint(|leaves|);
      if index < k {
        PathByLevelLeft(node, index, q, leaves, up, k, path, above, sibling);
      } else {
        PathByLevelRight(node, index, q, leaves, up, k, path, above, sibling);
      }
    }
  }

  ghost predicate PairIn<H>(level: seq<H>, j: nat, pairs: set<(H, H)>) {
    2 * j + 1 < |level| ==> (level[2 * j], level[2 * j + 1]) in pairs
  }

  ghost predicate LevelPairsIn<H>(level: seq<H>, pairs: set<(H, H)>) {
    forall j: nat :: PairIn(level, j, pairs)
  }

  lemma LevelPairsMonotone<H>(level: seq<H>, pairs: set<(H, H)>, more: set<(H, H)>)
    requires LevelPairsIn(level, pairs) && pairs <= more
    ensures LevelPairsIn(level, more)
  {
    forall j: nat ensures PairIn(level, j, more) {
      assert PairIn(level, j, pairs);
    }
  }

  lemma LevelPairsSplit<H>(level: seq<H>, k: nat, pairs: set<(H, H)>)
    requires k % 2 == 0 && k <= |level|
    requires LevelPairsIn(level[..k], pairs) && LevelPairsIn(level[k..], pairs)
    ensures LevelPairsIn(level, pairs)
  {
    forall j: nat ensures PairIn(level, j, pairs) {
      if 2 * j < k {
        assert PairIn(level[..k], j, pairs);
      } else {
        assert PairIn(level[k..], j - k / 2, pairs);
      }
    }
  }

  lemma TreePairsSplit<H>(node: Combine<H>, leaves: seq<H>, k: nat)
    requires |leaves| >= 2 && k == SplitPoint(|leaves|)
    ensures TreePairs(node, leaves) == TreePairs(node, leaves[..k]) + TreePairs(node, leaves[k..])
                                       + {(RootHash(node, leaves[..k]), RootHash(node, leaves[k..]))}
  {
  }

  /** The pairs of one level, and everything combined above it, are tree pairs. */
  lemma {:induction false} PairsByLevel<H>(node: Combine<H>, leaves: seq<H>)
    requires |leaves| >= 1
    ensures TreePairs(node, Up(node, leaves)) <= TreePairs(node, leaves)
    ensures LevelPairsIn(leaves, TreePairs(node, leaves))
    decreases |leaves|
  {
    if |leaves| == 1 {
      UpSingle(node, leaves);
    } else if |leaves| == 2 {
      UpPair(node, leaves);
      assert TreePairs(node, leaves) == {(leaves[0], leaves[1])};
    } else {
      var k, up := UpSplitPoint(node, leaves);
      UpKeepsRoot(node, leaves[..k]);
      UpKeepsRoot(node, leaves[k..]);
      PairsByLevel(node, leaves[..k]);
      PairsByLevel(node, leaves[k..]);
      TreePairsSplit(node, leaves, k);
      TreePairsSplit(node, up, k / 2);
      var pairs := TreePairs(node, leaves);
      LevelPairsMonotone(leaves[..k], TreePairs(node, leaves[..k]), pairs);
      LevelPairsMonotone(leaves[k..], TreePairs(node, leaves[k..]), pairs);
      LevelPairsSplit(leaves, k, pairs);
    }
  }

  function LevelRoot<H>(node: Combine<H>, level: seq<H>): H
    requires |level| >= 1
    decreases |level|
  {
    if |level| == 1 then level[0] else LevelRoot(node, Up(node, level))
  }

  function LevelPath<H>(node: Combine<H>, index: nat, level: seq<H>): seq<H>
    requires index < |level|
    decreases |level|
  {
    if |level| == 1 then [] else Sibling(index, level) + LevelPath(node, index / 2, Up(node, level))
  }

  /** The pairs combined at this level, and above. */
  ghost predicate LevelsIn<H>(node: Combine<H>, level: seq<H>, pairs: set<(H, H)>)
    requires |level| >= 1
    decreases |level|
  {
    LevelPairsIn(level, pairs) && (|level| > 1 ==> LevelsIn(node, Up(node, level), pairs))
  }

  /** The level-by-level root, path and pairs are those of the recursive tree. */
  lemma {:induction false} LevelRootIsRoot<H>(node: Combine<H>, leaves: seq<H>)
    requires |leaves| >= 1
    ensures LevelRoot(node, leaves) == RootHash(node, leaves)
    decreases |leaves|
  {
    if |leaves| > 1 {
      LevelRootIsRoot(node, Up(node, leaves));
      UpKeepsRoot(node, leaves);
    }
  }

  lemma {:induction false} LevelPathIsPath<H>(node: Combine<H>, index: nat, leaves: seq<H>)
    requires index < |leaves|
    ensures LevelPath(node, index, leaves) == InclusionPath(node, index, leaves)
    decreases |leaves|
  {
    if |leaves| > 1 {
      var up := Up(node, leaves);
      LevelPathIsPath(node, index / 2, up);
      var path, above := InclusionPath(node, index, leaves), InclusionPath(node, index / 2, up);
      PathByLevel(node, index, index / 2, leaves, up, path, above, Sibling(index, leaves));
    }
  }

  lemma {:induction false} LevelsInTree<H>(node: Combine<H>, leaves: seq<H>, pairs: set<(H, H)>)
    requires |leaves| >= 1 && TreePairs(node, leaves) <= pairs
    ensures LevelsIn(node, leaves, pairs)
    decreases |leaves|
  {
    PairsByLevel(node, leaves);
    LevelPairsMonotone(leaves, TreePairs(node, leaves), pairs);
    if |leaves| > 1 {
      LevelsInTree(node, Up(node, leaves), pairs);
    }
  }

  // ---------------------------------------------------------------- verifying inclusion

  /** The root reached from hash `r` at position `f` of a level whose last
      position is `s`, consuming the whole path; None if the path does not fit. */
  function Climb<H>(node: Combine<H>, f: nat, s: nat, r: H, path: seq<H>): Option<H>
    requires f <= s
    decreases s
  {
    if s == 0 then
      if path == [] then Some(r) else None
    else if f % 2 == 0 && f == s then
      Climb(node, f / 2, s / 2, r, path)
    else if path == [] then
      None
    else if f % 2 == 1 then
      Climb(node, f / 2, s / 2, node(path[0], r), path[1..])
    else
      Climb(node, f / 2, s / 2, node(r, path[0]), path[1..])
  }

  /** The pairs combined on the way. */
  ghost function ClimbPairs<H>(node: Combine<H>, f: nat, s: nat, r: H, path: seq<H>): set<(H, H)>
    requires f <= s
    decreases s
  {
    if s == 0 then {}
    else if f % 2 == 0 && f == s then ClimbPairs(node, f / 2, s / 2, r, path)
    else if path == [] then {}
    else if f % 2 == 1 then
      {(path[0], r)} + ClimbPairs(node, f / 2, s / 2, node(path[0], r), path[1..])
    else
      {(r, path[0])} + ClimbPairs(node, f / 2, s / 2, node(r, path[0]), path[1..])
  }

  /** A path that is too short never reaches the root. */
  lemma {:induction false} ClimbNeedsPath<H>(node: Combine<H>, f: nat, s: nat, r: H)
    requires f <= s && s > 0
    ensures Climb(node, f, s, r, []) == None
    decreases s
  {
    if f % 2 == 0 && f == s {
      ClimbNeedsPath(node, f / 2, s / 2, r);
    }
  }

  /** Accepts exactly when the climb from the claimed leaf ends at the claimed
      root and uses up the path. */
  method VerifyInclusion<H(==)>(node: Combine<H>, leafHash: H, leafIndex: nat, treeSize: nat, path: seq<H>, root: H)
      returns (ok: bool)
    ensures ok <==> leafIndex < treeSize && Climb(node, leafIndex, treeSize - 1, leafHash, path) == Some(root)
  {
    if leafIndex >= treeSize {
      return false;
    }
    var fln: nat, sn: nat, r := leafIndex, treeSize - 1, leafHash;
    for i := 0 to |path|
      invariant fln <= sn
      invariant Climb(node, fln, sn, r, path[i..]) == Climb(node, leafIndex, treeSize - 1, leafHash, path)
    {
      if sn == 0 {
        return false;
      }
      var p := path[i];
      ghost var rest := path[i..];
      assert rest[0] == p && rest[1..] == path[i + 1..];
      if fln % 2 == 1 || fln == sn {
        ghost var below := r;
        r := node(p, r);
        if fln % 2 == 0 {
          while fln % 2 == 0 && fln != 0
            invariant 0 < fln == sn
            invariant Climb(node, fln, sn, below, rest) == Climb(node, leafIndex, treeSize - 1, leafHash, path)
            decreases fln
          {
            fln := fln / 2;
            sn := sn / 2;
          }
        }
      } else {
        r := node(r, p);
      }
      fln := fln / 2;
      sn := sn / 2;
    }
    if sn != 0 {
      ClimbNeedsPath(node, fln, sn, r);
    }
    return sn == 0 && r == root;
  }

  /** What stands above position `index`, in the three cases of a climb. */
  lemma UpAt<H>(node: Combine<H>, level: seq<H>, index: nat)
    requires index < |level|
    ensures index % 2 == 1 ==> Up(node, level)[index / 2] == node(level[index - 1], level[index])
    ensures index % 2 == 0 && index + 1 < |level| ==> Up(node, level)[index / 2] == node(level[index], level[index + 1])
    ensures index % 2 == 0 && index + 1 == |level| ==> Up(node, level)[index / 2] == level[index]
    ensures (|level| - 1) / 2 == |Up(node, level)| - 1
  {
    UpElement(node, level, Up(node, level), index / 2);
    assert index % 2 == 1 ==> 2 * (index / 2) == index - 1;
    assert index % 2 == 0 ==> 2 * (index / 2) == index;
  }

  lemma ClimbOnce<H>(node: Combine<H>, f: nat, s: nat, r: H, p: H, rest: seq<H>)
    requires f <= s
    ensures f % 2 == 1 ==> Climb(node, f, s, r, [p] + rest) == Climb(node, f / 2, s / 2, node(p, r), rest)
    ensures f % 2 == 0 && f < s ==> Climb(node, f, s, r, [p] + rest) == Climb(node, f / 2, s / 2, node(r, p), rest)
  {
    assert ([p] + rest)[1..] == rest;
  }

  lemma LevelPathOnce<H>(node: Combine<H>, f: nat, level: seq<H>, up: seq<H>, path: seq<H>, above: seq<H>)
    requires f < |level| && |level| > 1 && up == Up(node, level)
    requires path == LevelPath(node, f, level) && above == LevelPath(node, f / 2, up)
    ensures path == if f % 2 == 1 then [level[f - 1]] + above
                    else if f + 1 < |level| then [level[f + 1]] + above else above
  {
    assert [] + above == above;
  }

  lemma ClimbStep<H>(node: Combine<H>, f: nat, level: seq<H>, up: seq<H>, path: seq<H>, above: seq<H>)
    requires f < |level| && |level| > 1 && up == Up(node, level)
    requires path == LevelPath(node, f, level) && above == LevelPath(node, f / 2, up)
    ensures f / 2 <= |up| - 1
    ensures Climb(node, f, |level| - 1, level[f], path) == Climb(node, f / 2, |up| - 1, up[f / 2], above)
  {
    UpAt(node, level, f);
    LevelPathOnce(node, f, level, up, path, above);
    if f % 2 == 1 {
      ClimbOnce(node, f, |level| - 1, level[f], level[f - 1], above);
    } else if f + 1 < |level| {
      ClimbOnce(node, f, |level| - 1, level[f], level[f + 1], above);
    }
  }

  /** Every leaf of every tree: its own path climbs to the tree's root. */
  lemma {:induction false} ClimbComplete<H>(node: Combine<H>, index: nat, level: seq<H>, path: seq<H>, root: H)
    requires index < |level| && path == LevelPath(node, index, level) && root == LevelRoot(node, level)
    ensures Climb(node, index, |level| - 1, level[index], path) == Some(root)
    decreases |level|
  {
    if |level| > 1 {
      var up := Up(node, level);
      var above := LevelPath(node, index / 2, up);
      ClimbComplete(node, index / 2, up, above, root);
      ClimbStep(node, index, level, up, path, above);
    }
  }

  lemma ClimbNeedsSibling<H>(node: Combine<H>, f: nat, s: nat, r: H, path: seq<H>)
    requires f <= s && s > 0 && (f % 2 == 1 || f < s)
    requires Climb(node, f, s, r, path).Some?
    ensures path != [] && path == [path[0]] + path[1..]
  {
  }

  lemma ClimbPairsOnce<H>(node: Combine<H>, f: nat, s: nat, r: H, p: H, rest: seq<H>)
    requires f <= s
    ensures f % 2 == 1 ==>
              ClimbPairs(node, f, s, r, [p] + rest) == {(p, r)} + ClimbPairs(node, f / 2, s / 2, node(p, r), rest)
    ensures f % 2 == 0 && f < s ==>
              ClimbPairs(node, f, s, r, [p] + rest) == {(r, p)} + ClimbPairs(node, f / 2, s / 2, node(r, p), rest)
  {
    assert ([p] + rest)[1..] == rest;
  }

  /** A climbed pair that combines to the hash above position `f` is the
      level's own pair there. */
  lemma PairDetermined<H(!new)>(node: Combine<H>, level: seq<H>, f: nat, pairs: set<(H, H)>, a: H, b: H)
    requires f < |level| && (f % 2 == 1 || f + 1 < |level|)
    requires LevelPairsIn(level, pairs) && CollisionFree(node, pairs) && (a, b) in pairs
    requires node(a, b) == Up(node, level)[f / 2]
    ensures f % 2 == 1 ==> a == level[f - 1] && b == level[f]
    ensures f % 2 == 0 ==> a == level[f] && b == level[f + 1]
  {
    UpAt(node, level, f);
    assert PairIn(level, f / 2, pairs);
    if f % 2 == 1 {
      assert f == 2 * (f / 2) + 1;
      assert NoClash(node, a, b, level[f - 1], level[f]);
    } else {
      assert f == 2 * (f / 2);
      assert NoClash(node, a, b, level[f], level[f + 1]);
    }
  }

  /** Nothing else climbs to the root, unless two combined pairs collide. */
  lemma {:induction false} ClimbSound<H(!new)>(node: Combine<H>, index: nat, level: seq<H>, leaf: H, path: seq<H>,
                                               pairs: set<(H, H)>)
    requires index < |level|
    requires Climb(node, index, |level| - 1, leaf, path) == Some(LevelRoot(node, level))
    requires CollisionFree(node, pairs)
    requires LevelsIn(node, level, pairs) && ClimbPairs(node, index, |level| - 1, leaf, path) <= pairs
    ensures leaf == level[index] && path == LevelPath(node, index, level)
    decreases |level|, 1
  {
    if |level| > 1 {
      if index % 2 == 1 || index < |level| - 1 {
        ClimbSoundPaired(node, index, level, leaf, path, pairs);
      } else {
        UpAt(node, level, index);
        ClimbSound(node, index / 2, Up(node, level), leaf, path, pairs);
        assert [] + path == path;
      }
    }
  }

  lemma {:induction false} ClimbSoundPaired<H(!new)>(node: Combine<H>, f: nat, level: seq<H>, leaf: H, path: seq<H>,
                                                     pairs: set<(H, H)>)
    requires f < |level| && (f % 2 == 1 || f < |level| - 1)
    requires Climb(node, f, |level| - 1, leaf, path) == Some(LevelRoot(node, level))
    requires CollisionFree(node, pairs)
    requires LevelsIn(node, level, pairs) && ClimbPairs(node, f, |level| - 1, leaf, path) <= pairs
    ensures leaf == level[f] && path == LevelPath(node, f, level)
    decreases |level|, 0
  {
    var up, s := Up(node, level), |level| - 1;
    ClimbNeedsSibling(node, f, s, leaf, path);
    var p, rest := path[0], path[1..];
    UpAt(node, level, f);
    ClimbOnce(node, f, s, leaf, p, rest);
    ClimbPairsOnce(node, f, s, leaf, p, rest);
    if f % 2 == 1 {
      ClimbSound(node, f / 2, up, node(p, leaf), rest, pairs);
      PairDetermined(node, level, f, pairs, p, leaf);
    } else {
      ClimbSound(node, f / 2, up, node(leaf, p), rest, pairs);
      PairDetermined(node, level, f, pairs, leaf, p);
    }
    assert Sibling(f, level) == [p];
  }

  /** Completeness of inclusion proofs, for every leaf of every tree. */
  lemma InclusionComplete<H>(node: Combine<H>, index: nat, leaves: seq<H>)
    requires index < |leaves|
    ensures Climb(node, index, |leaves| - 1, leaves[index], InclusionPath(node, index, leaves))
         == Some(RootHash(node, leaves))
  {
    LevelRootIsRoot(node, leaves);
    LevelPathIsPath(node, index, leaves);
    ClimbComplete(node, index, leaves, InclusionPath(node, index, leaves), RootHash(node, leaves));
  }

  /** Soundness of inclusion proofs: the only leaf hash and path accepted at a
      position are the tree's own. */
  lemma InclusionSound<H(!new)>(node: Combine<H>, index: nat, leaves: seq<H>, leaf: H, path: seq<H>)
    requires index < |leaves|
    requires Climb(node, index, |leaves| - 1, leaf, path) == Some(RootHash(node, leaves))
    requires CollisionFree(node, TreePairs(node, leaves) + ClimbPairs(node, index, |leaves| - 1, leaf, path))
    ensures leaf == leaves[index] && path == InclusionPath(node, index, leaves)
  {
    var pairs := TreePairs(node, leaves) + ClimbPairs(node, index, |leaves| - 1, leaf, path);
    LevelRootIsRoot(node, leaves);
    LevelPathIsPath(node, index, leaves);
    LevelsInTree(node, leaves, pairs);
    ClimbSound(node, index, leaves, leaf, path, pairs);
  }

  // ---------------------------------------------------------------- verifying consistency

  /** Where a double climb ends. */
  datatype Roots<+H> = NoRoots | Roots(first: H, second: H)

  /** Climbs two trees at once from position `f`, the last one of the older
      tree: left siblings belong to both trees, right siblings to the newer. */
  function ClimbBoth<H>(node: Combine<H>, f: nat, s: nat, fr: H, sr: H, path: seq<H>): Roots<H>
    requires f <= s
    decreases s
  {
    if s == 0 then
      if path == [] then Roots(fr, sr) else NoRoots
    else if f % 2 == 0 && f == s then
      ClimbBoth(node, f / 2, s / 2, fr, sr, path)
    else if path == [] then
      NoRoots
    else if f % 2 == 1 then
      ClimbBoth(node, f / 2, s / 2, node(path[0], fr), node(path[0], sr), path[1..])
    else
      ClimbBoth(node, f / 2, s / 2, fr, node(sr, path[0]), path[1..])
  }

  lemma {:induction false} ClimbBothNeedsPath<H>(node: Combine<H>, f: nat, s: nat, fr: H, sr: H)
    requires f <= s && s > 0
    ensures ClimbBoth(node, f, s, fr, sr, []) == NoRoots
    decreases s
  {
    if f % 2 == 0 && f == s {
      ClimbBothNeedsPath(node, f / 2, s / 2, fr, sr);
    }
  }

  /** The hashes a consistency proof supplies, with the older root in front when
      the older tree is a complete subtree of the newer one. */
  function Supplied<H>(first: nat, path: seq<H>, firstHash: H): seq<H> {
    if IsPowerOfTwo(first) then [firstHash] + path else path
  }

  /** The double climb of a proof whose hashes, older root included, are `work`:
      levels on which the older tree has an even size need none. */
  function ClimbFrom<H>(node: Combine<H>, m: nat, n: nat, work: seq<H>): Roots<H>
    requires 0 < m <= n && work != []
    decreases m
  {
    if m % 2 == 0 then ClimbFrom(node, m / 2, (n + 1) / 2, work)
    else ClimbBoth(node, m - 1, n - 1, work[0], work[0], work[1..])
  }

  predicate ConsistencyAccepted<H(==)>(node: Combine<H>, first: nat, second: nat, path: seq<H>, firstHash: H,
                                       secondHash: H) {
    if first == 0 || first > second then false
    else if first == second then path == [] && firstHash == secondHash
    else
      var work := Supplied(first, path, firstHash);
      work != [] && ClimbFrom(node, first, second, work) == Roots(firstHash, secondHash)
  }

  /** Accepts exactly when the double climb ends at both claimed roots. */
  method VerifyConsistency<H(==)>(node: Combine<H>, first: nat, second: nat, path: seq<H>, firstHash: H, secondHash: H)
      returns (ok: bool)
    ensures ok <==> ConsistencyAccepted(node, first, second, path, firstHash, secondHash)
  {
    if first == 0 || first > second {
      return false;
    }
    if first == second {
      return path == [] && firstHash == secondHash;
    }
    var work := [];
    if IsPowerOfTwo(first) {
      work := [firstHash];
    }
    work := work + path;
    if |work| == 0 {
      return false;
    }
    var fln: nat, sn: nat := first - 1, second - 1;
    while fln % 2 == 1
      invariant fln <= sn && ClimbFrom(node, fln + 1, sn + 1, work) == ClimbFrom(node, first, second, work)
      decreases fln
    {
      assert (fln + 1) / 2 == fln / 2 + 1 && (sn + 2) / 2 == sn / 2 + 1;
      fln := fln / 2;
      sn := sn / 2;
    }
    assert work == Supplied(first, path, firstHash);
    ghost var f0, s0, tail := fln, sn, work[1..];
    var fr, sr := work[0], work[0];
    for i := 1 to |work|
      invariant fln <= sn
      invariant ClimbBoth(node, fln, sn, fr, sr, work[i..]) == ClimbBoth(node, f0, s0, work[0], work[0], tail)
    {
      ghost var rest := work[i..];
      if sn == 0 {
        return false;
      }
      var c := work[i];
      assert rest[0] == c && rest[1..] == work[i + 1..];
      if fln % 2 == 1 || fln == sn {
        ghost var oldFr, oldSr := fr, sr;
        fr := node(c, fr);
        sr := node(c, sr);
        if fln % 2 == 0 {
          while fln % 2 == 0 && fln != 0
            invariant 0 < fln == sn
            invariant ClimbBoth(node, fln, sn, oldFr, oldSr, rest) == ClimbBoth(node, f0, s0, work[0], work[0], tail)
            decreases fln
          {
            fln := fln / 2;
            sn := sn / 2;
          }
        }
      } else {
        sr := node(sr, c);
      }
      fln := fln / 2;
      sn := sn / 2;
    }
    if sn != 0 {
      ClimbBothNeedsPath(node, fln, sn, fr, sr);
    }
    return fr == firstHash && sr == secondHash && sn == 0;
  }

  lemma ClimbBothOnce<H>(node: Combine<H>, f: nat, s: nat, fr: H, sr: H, p: H, rest: seq<H>)
    requires f <= s
    ensures f % 2 == 1 ==>
              ClimbBoth(node, f, s, fr, sr, [p] + rest) == ClimbBoth(node, f / 2, s / 2, node(p, fr), node(p, sr), rest)
    ensures f % 2 == 0 && f < s ==>
              ClimbBoth(node, f, s, fr, sr, [p] + rest) == ClimbBoth(node, f / 2, s / 2, fr, node(sr, p), rest)
  {
    assert ([p] + rest)[1..] == rest;
  }

  /** The newer half of a double climb is the single climb. */
  lemma {:induction false} ClimbBothNewer<H>(node: Combine<H>, f: nat, s: nat, fr: H, sr: H, path: seq<H>)
    requires f <= s
    ensures ClimbBoth(node, f, s, fr, sr, path).NoRoots? ==> Climb(node, f, s, sr, path) == None
    ensures ClimbBoth(node, f, s, fr, sr, path).Roots? ==>
              Climb(node, f, s, sr, path) == Some(ClimbBoth(node, f, s, fr, sr, path).second)
    decreases s
  {
    if s != 0 {
      if f % 2 == 0 && f == s {
        ClimbBothNewer(node, f / 2, s / 2, fr, sr, path);
      } else if path != [] {
        if f % 2 == 1 {
          ClimbBothNewer(node, f / 2, s / 2, node(path[0], fr), node(path[0], sr), path[1..]);
        } else {
          ClimbBothNewer(node, f / 2, s / 2, fr, node(sr, path[0]), path[1..]);
        }
      }
    }
  }

  /** `past` is a shorter level that agrees with `now` before its last hash. */
  ghost predicate Trails<H>(past: seq<H>, now: seq<H>) {
    1 <= |past| <= |now| && forall i :: 0 <= i < |past| - 1 ==> past[i] == now[i]
  }

  lemma TrailsUp<H>(node: Combine<H>, past: seq<H>, now: seq<H>)
    requires Trails(past, now)
    ensures Trails(Up(node, past), Up(node, now))
  {
    forall j | 0 <= j < |Up(node, past)| - 1
      ensures Up(node, past)[j] == Up(node, now)[j]
    {
      UpElement(node, past, Up(node, past), j);
      UpElement(node, now, Up(node, now), j);
      assert past[2 * j] == now[2 * j] && past[2 * j + 1] == now[2 * j + 1];
    }
  }

  /** One level of the double climb along the inclusion path of position `f`. */
  lemma ClimbBothStep<H>(node: Combine<H>, f: nat, past: seq<H>, now: seq<H>, pu: seq<H>, nu: seq<H>,
                         path: seq<H>, above: seq<H>)
    requires Trails(past, now) && |past| == f + 1 && |now| > 1
    requires pu == Up(node, past) && nu == Up(node, now)
    requires path == LevelPath(node, f, now) && above == LevelPath(node, f / 2, nu)
    ensures f / 2 <= |nu| - 1 && f / 2 < |pu|
    ensures ClimbBoth(node, f, |now| - 1, past[f], now[f], path)
         == ClimbBoth(node, f / 2, |nu| - 1, pu[f / 2], nu[f / 2], above)
  {
    UpAt(node, past, f);
    UpAt(node, now, f);
    LevelPathOnce(node, f, now, nu, path, above);
    if f % 2 == 1 {
      ClimbBothOnce(node, f, |now| - 1, past[f], now[f], now[f - 1], above);
    } else if f + 1 < |now| {
      ClimbBothOnce(node, f, |now| - 1, past[f], now[f], now[f + 1], above);
    }
  }

  /** From the last position of the older tree, the inclusion path in the newer
      tree climbs to both roots. */
  lemma {:induction false} ClimbBothComplete<H>(node: Combine<H>, f: nat, past: seq<H>, now: seq<H>, path: seq<H>,
                                                a: H, b: H)
    requires Trails(past, now) && |past| == f + 1 && path == LevelPath(node, f, now)
    requires a == LevelRoot(node, past) && b == LevelRoot(node, now)
    ensures ClimbBoth(node, f, |now| - 1, past[f], now[f], path) == Roots(a, b)
    decreases |now|
  {
    if |now| > 1 {
      var pu, nu := Up(node, past), Up(node, now);
      var above := LevelPath(node, f / 2, nu);
      TrailsUp(node, past, now);
      UpAt(node, past, f);
      LevelRootUp(node, past);
      LevelRootUp(node, now);
      ClimbBothComplete(node, f / 2, pu, nu, above, a, b);
      ClimbBothStep(node, f, past, now, pu, nu, path, above);
    }
  }

  lemma LevelRootUp<H>(node: Combine<H>, level: seq<H>)
    requires |level| >= 1
    ensures LevelRoot(node, Up(node, level)) == LevelRoot(node, level)
  {
    if |level| == 1 {
      UpSingle(node, level);
    }
  }

  lemma SubproofIntoLeft<H>(node: Combine<H>, m: nat, leaves: seq<H>, whole: bool, k: nat, sub: seq<H>, s: seq<H>, r: H)
    requires 0 < m < |leaves| && k == SplitPoint(|leaves|) && m <= k && sub == Subproof(node, m, leaves, whole)
    requires s == Subproof(node, m, leaves[..k], whole) && r == RootHash(node, leaves[k..])
    ensures sub == s + [r]
  {
  }

  lemma SubproofIntoRight<H>(node: Combine<H>, m: nat, leaves: seq<H>, whole: bool, k: nat, i: nat, sub: seq<H>,
                             s: seq<H>, r: H)
    requires 0 < i && k + i == m < |leaves| && k == SplitPoint(|leaves|) && sub == Subproof(node, m, leaves, whole)
    requires s == Subproof(node, i, leaves[k..], false) && r == RootHash(node, leaves[..k])
    ensures sub == s + [r]
  {
  }

  lemma {:induction false} SubproofEvenLeft<H>(node: Combine<H>, m: nat, h: nat, leaves: seq<H>, whole: bool,
                                               up: seq<H>, k: nat, sub: seq<H>, above: seq<H>)
    requires |leaves| >= 3 && k == SplitPoint(|leaves|) && 0 < m <= k && m == 2 * h && up == Up(node, leaves)
    requires sub == Subproof(node, m, leaves, whole) && above == Subproof(node, h, up, whole)
    ensures sub == above
    decreases |leaves|, 0
  {
    var j, left, right, low, high, r := UpHalves(node, leaves, up, k, false);
    var s, a := Subproof(node, m, left, whole), Subproof(node, h, low, whole);
    SubproofEven(node, m, h, left, whole, low, s, a);
    SubproofIntoLeft(node, m, leaves, whole, k, sub, s, r);
    SubproofIntoLeft(node, h, up, whole, j, above, a, r);
  }

  lemma {:induction false} SubproofEvenRight<H>(node: Combine<H>, m: nat, h: nat, leaves: seq<H>, whole: bool,
                                                up: seq<H>, k: nat, sub: seq<H>, above: seq<H>)
    requires |leaves| >= 3 && k == SplitPoint(|leaves|) && k < m < |leaves| && m == 2 * h && up == Up(node, leaves)
    requires sub == Subproof(node, m, leaves, whole) && above == Subproof(node, h, up, whole)
    ensures sub == above
    decreases |leaves|, 0
  {
    var j, left, right, low, high, r := UpHalves(node, leaves, up, k, true);
    var i: nat, o: nat := m - k, h - j;
    var s, a := Subproof(node, i, right, false), Subproof(node, o, high, false);
    SubproofEven(node, i, o, right, false, high, s, a);
    SubproofIntoRight(node, m, leaves, whole, k, i, sub, s, r);
    SubproofIntoRight(node, h, up, whole, j, o, above, a, r);
  }

  /** An older tree of even size: the proof is that of half the size, one level
      up. */
  lemma {:induction false} SubproofEven<H>(node: Combine<H>, m: nat, h: nat, leaves: seq<H>, whole: bool, up: seq<H>,
                                           sub: seq<H>, above: seq<H>)
    requires 0 < m <= |leaves| && m == 2 * h && up == Up(node, leaves)
    requires sub == Subproof(node, m, leaves, whole) && above == Subproof(node, h, up, whole)
    ensures sub == above
    decreases |leaves|, 1
  {
    if m == |leaves| {
      UpKeepsRoot(node, leaves);
    } else {
      var k := SplitPoint(|leaves|);
      if m <= k {
        SubproofEvenLeft(node, m, h, leaves, whole, up, k, sub, above);
      } else {
        SubproofEvenRight(node, m, h, leaves, whole, up, k, sub, above);
      }
    }
  }

  /** The hash a proof starts from when the older tree has odd size: its last
      leaf, omitted when that is the whole older tree. */
  function Seed<H>(m: nat, leaves: seq<H>, whole: bool): seq<H>
    requires 0 < m <= |leaves|
  {
    if m == 1 && whole then [] else [leaves[m - 1]]
  }

  lemma OddWhole<H>(node: Combine<H>, leaves: seq<H>, whole: bool, sub: seq<H>, path: seq<H>, seed: seq<H>)
    requires |leaves| == 1 && sub == Subproof(node, 1, leaves, whole) && path == InclusionPath(node, 0, leaves)
    requires seed == Seed(1, leaves, whole)
    ensures sub == seed + path
  {
  }

  lemma {:induction false} OddIntoLeft<H>(node: Combine<H>, m: nat, f: nat, leaves: seq<H>, whole: bool, k: nat,
                                          sub: seq<H>, path: seq<H>, seed: seq<H>)
    requires 0 < m == f + 1 <= k < |leaves| && m % 2 == 1 && k == SplitPoint(|leaves|)
    requires sub == Subproof(node, m, leaves, whole) && path == InclusionPath(node, f, leaves)
    requires seed == Seed(m, leaves, whole)
    ensures sub == seed + path
    decreases |leaves|, 0
  {
    var left, r := leaves[..k], RootHash(node, leaves[k..]);
    var s, p := Subproof(node, m, left, whole), InclusionPath(node, f, left);
    SubproofOdd(node, m, f, left, whole, s, p, seed);
    SubproofIntoLeft(node, m, leaves, whole, k, sub, s, r);
    PathIntoLeft(node, f, leaves, k, path, p, r);
    SeedJoin(seed, p, r, s, sub, path);
  }

  lemma SeedInRight<H>(m: nat, i: nat, leaves: seq<H>, k: nat, right: seq<H>, whole: bool, seed: seq<H>)
    requires 1 <= k < k + i == m <= |leaves| && right == leaves[k..] && seed == Seed(m, leaves, whole)
    ensures seed == Seed(i, right, false)
  {
  }

  lemma OddJoinRight<H>(node: Combine<H>, m: nat, f: nat, i: nat, j: nat, leaves: seq<H>, whole: bool, k: nat,
                        sub: seq<H>, path: seq<H>, s: seq<H>, p: seq<H>, r: H, seed: seq<H>)
    requires |leaves| >= 2 && k == SplitPoint(|leaves|) && k + i == m < |leaves| && k + j == f && m == f + 1
    requires sub == Subproof(node, m, leaves, whole) && path == InclusionPath(node, f, leaves)
    requires s == Subproof(node, i, leaves[k..], false) && p == InclusionPath(node, j, leaves[k..])
    requires r == RootHash(node, leaves[..k]) && s == seed + p
    ensures sub == seed + path
  {
    SubproofIntoRight(node, m, leaves, whole, k, i, sub, s, r);
    PathIntoRight(node, f, leaves, k, j, path, p, r);
    SeedJoin(seed, p, r, s, sub, path);
  }

  lemma OddMinusEven(m: nat, k: nat, i: nat)
    requires m % 2 == 1 && k % 2 == 0 && k + i == m
    ensures i % 2 == 1
  {
  }

  lemma {:induction false} OddIntoRight<H>(node: Combine<H>, m: nat, f: nat, leaves: seq<H>, whole: bool, k: nat,
                                           sub: seq<H>, path: seq<H>, seed: seq<H>)
    requires |leaves| >= 2 && k == SplitPoint(|leaves|) && k < m == f + 1 < |leaves| && m % 2 == 1
    requires sub == Subproof(node, m, leaves, whole) && path == InclusionPath(node, f, leaves)
    requires seed == Seed(m, leaves, whole)
    ensures sub == seed + path
    decreases |leaves|, 0
  {
    var right, r := leaves[k..], RootHash(node, leaves[..k]);
    var i: nat, j: nat := m - k, f - k;
    var s, p := Subproof(node, i, right, false), InclusionPath(node, j, right);
    OddMinusEven(m, k, i);
    SeedInRight(m, i, leaves, k, right, whole, seed);
    SubproofOdd(node, i, j, right, false, s, p, seed);
    OddJoinRight(node, m, f, i, j, leaves, whole, k, sub, path, s, p, r, seed);
  }

  /** An older tree of odd size: the proof is its last leaf and that leaf's
      inclusion path in the newer tree. */
  lemma {:induction false} SubproofOdd<H>(node: Combine<H>, m: nat, f: nat, leaves: seq<H>, whole: bool, sub: seq<H>,
                                          path: seq<H>, seed: seq<H>)
    requires 0 < m == f + 1 <= |leaves| && m % 2 == 1 && (m < |leaves| || m == 1)
    requires sub == Subproof(node, m, leaves, whole) && path == InclusionPath(node, f, leaves)
    requires seed == Seed(m, leaves, whole)
    ensures sub == seed + path
    decreases |leaves|, 1
  {
    if m == |leaves| {
      OddWhole(node, leaves, whole, sub, path, seed);
    } else {
      var k := SplitPoint(|leaves|);
      if m <= k {
        OddIntoLeft(node, m, f, leaves, whole, k, sub, path, seed);
      } else {
        OddIntoRight(node, m, f, leaves, whole, k, sub, path, seed);
      }
    }
  }

  /** The pairs it combines on the newer side. */
  ghost function ClimbFromPairs<H>(node: Combine<H>, m: nat, n: nat, work: seq<H>): set<(H, H)>
    requires 0 < m <= n && work != []
    decreases m
  {
    if m % 2 == 0 then ClimbFromPairs(node, m / 2, (n + 1) / 2, work)
    else ClimbPairs(node, m - 1, n - 1, work[0], work[1..])
  }

  /** The proof for the first `m` leaves: the largest complete subtree that ends
      them, and its inclusion path. */
  function LevelProof<H>(node: Combine<H>, m: nat, level: seq<H>): seq<H>
    requires 0 < m <= |level|
    decreases |level|
  {
    if m % 2 == 0 then LevelProof(node, m / 2, Up(node, level))
    else [level[m - 1]] + LevelPath(node, m - 1, level)
  }

  lemma PrefixUp<H>(node: Combine<H>, m: nat, level: seq<H>)
    requires 0 < m <= |level| && m % 2 == 0
    ensures LevelRoot(node, Up(node, level)[..m / 2]) == LevelRoot(node, level[..m])
  {
    UpSplit(node, level, Up(node, level), m, m / 2);
  }

  lemma ClimbFromCompleteOdd<H>(node: Combine<H>, m: nat, level: seq<H>, work: seq<H>, a: H, b: H)
    requires 0 < m <= |level| && m % 2 == 1 && work == LevelProof(node, m, level)
    requires a == LevelRoot(node, level[..m]) && b == LevelRoot(node, level)
    ensures work != [] && ClimbFrom(node, m, |level|, work) == Roots(a, b)
  {
    var path := LevelPath(node, m - 1, level);
    ClimbFromOdd(node, m, |level|, level[m - 1], path);
    ClimbBothComplete(node, m - 1, level[..m], level, path, a, b);
  }

  lemma {:induction false} ClimbFromComplete<H>(node: Combine<H>, m: nat, level: seq<H>, work: seq<H>, a: H, b: H)
    requires 0 < m <= |level| && work == LevelProof(node, m, level)
    requires a == LevelRoot(node, level[..m]) && b == LevelRoot(node, level)
    ensures work != [] && ClimbFrom(node, m, |level|, work) == Roots(a, b)
    decreases |level|
  {
    if m % 2 == 0 {
      var up := Up(node, level);
      PrefixUp(node, m, level);
      LevelRootUp(node, level);
      ClimbFromComplete(node, m / 2, up, work, a, b);
    } else {
      ClimbFromCompleteOdd(node, m, level, work, a, b);
    }
  }

  lemma ClimbFromOdd<H>(node: Combine<H>, m: nat, n: nat, h: H, path: seq<H>)
    requires 0 < m <= n && m % 2 == 1
    ensures ClimbFrom(node, m, n, [h] + path) == ClimbBoth(node, m - 1, n - 1, h, h, path)
  {
    assert ([h] + path)[1..] == path;
  }

  lemma {:induction false} ClimbFromSoundOdd<H(!new)>(node: Combine<H>, m: nat, level: seq<H>, work: seq<H>, first: H,
                                                      pairs: set<(H, H)>)
    requires 0 < m <= |level| && m % 2 == 1 && work != []
    requires ClimbBoth(node, m - 1, |level| - 1, work[0], work[0], work[1..]) == Roots(first, LevelRoot(node, level))
    requires CollisionFree(node, pairs) && LevelsIn(node, level, pairs)
    requires ClimbPairs(node, m - 1, |level| - 1, work[0], work[1..]) <= pairs
    ensures work == [level[m - 1]] + LevelPath(node, m - 1, level)
  {
    ClimbBothNewer(node, m - 1, |level| - 1, work[0], work[0], work[1..]);
    ClimbSound(node, m - 1, level, work[0], work[1..], pairs);
  }

  lemma LevelsInUp<H>(node: Combine<H>, level: seq<H>, pairs: set<(H, H)>)
    requires |level| > 1 && LevelsIn(node, level, pairs)
    ensures |Up(node, level)| == (|level| + 1) / 2 && LevelsIn(node, Up(node, level), pairs)
  {
  }

  lemma {:induction false} ClimbFromSound<H(!new)>(node: Combine<H>, m: nat, level: seq<H>, work: seq<H>, first: H,
                                                   root: H, proof: seq<H>, pairs: set<(H, H)>)
    requires 0 < m <= |level| && work != []
    requires root == LevelRoot(node, level) && proof == LevelProof(node, m, level)
    requires ClimbFrom(node, m, |level|, work) == Roots(first, root)
    requires CollisionFree(node, pairs) && LevelsIn(node, level, pairs)
    requires ClimbFromPairs(node, m, |level|, work) <= pairs
    ensures work == proof
    decreases |level|
  {
    if m % 2 == 0 {
      var up := Up(node, level);
      LevelsInUp(node, level, pairs);
      LevelRootUp(node, level);
      ClimbFromSound(node, m / 2, up, work, first, root, proof, pairs);
    } else {
      ClimbFromSoundOdd(node, m, level, work, first, pairs);
    }
  }

  lemma PrefixRootUp<H>(node: Combine<H>, m: nat, leaves: seq<H>)
    requires 0 < m <= |leaves| && m % 2 == 0
    ensures RootHash(node, Up(node, leaves)[..m / 2]) == RootHash(node, leaves[..m])
  {
    UpSplit(node, leaves, Up(node, leaves), m, m / 2);
    UpKeepsRoot(node, leaves[..m]);
  }

  lemma FirstRoot<H>(node: Combine<H>, m: nat, leaves: seq<H>, root: H)
    requires 0 < m <= |leaves| && root == RootHash(node, leaves[..m])
    ensures m == 1 ==> root == leaves[0]
  {
  }

  lemma SeedOfWhole<H>(m: nat, f: nat, leaves: seq<H>, leaf: H, seed: seq<H>)
    requires 0 < m == f + 1 <= |leaves| && leaf == leaves[f] && seed == (if m == 1 then [] else [leaf])
    ensures seed == Seed(m, leaves, true)
  {
  }

  lemma SuppliedOdd<H>(node: Combine<H>, m: nat, f: nat, leaves: seq<H>, path: seq<H>, root: H, proof: seq<H>,
                       inclusion: seq<H>)
    requires 0 < m == f + 1 < |leaves| && m % 2 == 1 && path == Subproof(node, m, leaves, true)
    requires inclusion == InclusionPath(node, f, leaves) && proof == [leaves[f]] + inclusion
    requires m == 1 ==> root == leaves[0]
    ensures Supplied(m, path, root) == proof
  {
    var leaf := leaves[f];
    var seed := if m == 1 then [] else [leaf];
    SeedOfWhole(m, f, leaves, leaf, seed);
    SubproofOdd(node, m, f, leaves, true, path, inclusion, seed);
    SuppliedJoin(m, leaf, inclusion, path, root, proof, seed);
  }

  lemma LevelProofOdd<H>(node: Combine<H>, m: nat, level: seq<H>, proof: seq<H>, path: seq<H>)
    requires 0 < m <= |level| && m % 2 == 1 && proof == LevelProof(node, m, level)
             && path == InclusionPath(node, m - 1, level)
    ensures proof == [level[m - 1]] + path
  {
    LevelPathIsPath(node, m - 1, level);
  }

  lemma SuppliedJoin<H>(m: nat, leaf: H, inclusion: seq<H>, path: seq<H>, root: H, proof: seq<H>, seed: seq<H>)
    requires m % 2 == 1 && proof == [leaf] + inclusion && path == seed + inclusion
    requires seed == (if m == 1 then [] else [leaf]) && (m == 1 ==> root == leaf)
    ensures Supplied(m, path, root) == proof
  {
    if m == 1 {
      assert path == inclusion;
    }
  }

  /** The recursive consistency proof supplies exactly those hashes. */
  lemma {:induction false} SuppliedIsLevelProof<H>(node: Combine<H>, m: nat, leaves: seq<H>, path: seq<H>, root: H,
                                                   proof: seq<H>)
    requires 0 < m < |leaves| && path == Subproof(node, m, leaves, true)
    requires root == RootHash(node, leaves[..m]) && proof == LevelProof(node, m, leaves)
    ensures Supplied(m, path, root) == proof
    decreases |leaves|
  {
    if m % 2 == 1 {
      var inclusion := InclusionPath(node, m - 1, leaves);
      LevelProofOdd(node, m, leaves, proof, inclusion);
      FirstRoot(node, m, leaves, root);
      SuppliedOdd(node, m, m - 1, leaves, path, root, proof, inclusion);
    } else {
      var up := Up(node, leaves);
      SubproofEven(node, m, m / 2, leaves, true, up, path, Subproof(node, m / 2, up, true));
      PrefixRootUp(node, m, leaves);
      SuppliedIsLevelProof(node, m / 2, up, path, root, proof);
    }
  }

  /** Completeness of consistency proofs: every prefix of every tree. */
  lemma ConsistencyComplete<H>(node: Combine<H>, m: nat, leaves: seq<H>)
    requires 0 < m <= |leaves|
    ensures ConsistencyAccepted(node, m, |leaves|, ConsistencyPath(node, m, leaves),
                                RootHash(node, leaves[..m]), RootHash(node, leaves))
  {
    if m == |leaves| {
      assert leaves[..m] == leaves;
    } else {
      var path, a, b := ConsistencyPath(node, m, leaves), RootHash(node, leaves[..m]), RootHash(node, leaves);
      var proof := LevelProof(node, m, leaves);
      SuppliedIsLevelProof(node, m, leaves, path, a, proof);
      LevelRootIsRoot(node, leaves[..m]);
      LevelRootIsRoot(node, leaves);
      ClimbFromComplete(node, m, leaves, proof, a, b);
    }
  }

  /** The pairs a consistency check combines on the newer side. */
  ghost function ConsistencyPairs<H>(node: Combine<H>, first: nat, second: nat, path: seq<H>,
                                     firstHash: H): set<(H, H)> {
    var work := Supplied(first, path, firstHash);
    if 0 < first < second && work != [] then ClimbFromPairs(node, first, second, work) else {}
  }

  lemma SuppliedPath<H>(m: nat, p: seq<H>, q: seq<H>, first: H)
    requires Supplied(m, p, first) == Supplied(m, q, first)
    ensures p == q
  {
    assert p == ([first] + p)[1..];
    assert q == ([first] + q)[1..];
  }

  /** Soundness of consistency proofs: against the root of a tree, the only older
      root accepted for size `m` is the root of its first `m` leaves, and the
      only proof is the tree's own. */
  lemma ConsistencySound<H(!new)>(node: Combine<H>, m: nat, leaves: seq<H>, path: seq<H>, firstHash: H)
    requires |leaves| >= 1
    requires ConsistencyAccepted(node, m, |leaves|, path, firstHash, RootHash(node, leaves))
    requires CollisionFree(node, TreePairs(node, leaves) + ConsistencyPairs(node, m, |leaves|, path, firstHash))
    ensures 0 < m <= |leaves|
    ensures firstHash == RootHash(node, leaves[..m]) && path == ConsistencyPath(node, m, leaves)
  {
    if m == |leaves| {
      assert leaves[..m] == leaves;
    } else {
      var work := Supplied(m, path, firstHash);
      var pairs := TreePairs(node, leaves) + ConsistencyPairs(node, m, |leaves|, path, firstHash);
      var own, proof := ConsistencyPath(node, m, leaves), LevelProof(node, m, leaves);
      var a, b := RootHash(node, leaves[..m]), RootHash(node, leaves);
      ConsistencySoundRoot(node, m, leaves, work, firstHash, a, b, proof, pairs);
      SuppliedIsLevelProof(node, m, leaves, own, a, proof);
      SuppliedPath(m, path, own, firstHash);
    }
  }

  lemma ConsistencySoundRoot<H(!new)>(node: Combine<H>, m: nat, leaves: seq<H>, work: seq<H>, first: H, a: H, b: H,
                                      proof: seq<H>, pairs: set<(H, H)>)
    requires 0 < m <= |leaves| && work != []
    requires a == RootHash(node, leaves[..m]) && b == RootHash(node, leaves) && proof == LevelProof(node, m, leaves)
    requires ClimbFrom(node, m, |leaves|, work) == Roots(first, b)
    requires CollisionFree(node, pairs) && TreePairs(node, leaves) <= pairs
    requires ClimbFromPairs(node, m, |leaves|, work) <= pairs
    ensures work == proof && first == a
  {
    LevelRootIsRoot(node, leaves);
    LevelRootIsRoot(node, leaves[..m]);
    LevelsInTree(node, leaves, pairs);
    ClimbFromSound(node, m, leaves, work, first, b, proof, pairs);
    ClimbFromComplete(node, m, leaves, proof, a, b);
  }

  // ---------------------------------------------------------------- one root, one list

  lemma {:induction false} LevelRootInjective<H(!new)>(node: Combine<H>, a: seq<H>, b: seq<H>, pairs: set<(H, H)>)
    requires 1 <= |a| == |b| && LevelRoot(node, a) == LevelRoot(node, b)
    requires CollisionFree(node, pairs) && LevelsIn(node, a, pairs) && LevelsIn(node, b, pairs)
    ensures a == b
    decreases |a|
  {
    if |a| > 1 {
      LevelRootInjective(node, Up(node, a), Up(node, b), pairs);
      forall i | 0 <= i < |a| ensures a[i] == b[i] {
        SamePosition(node, a, b, i, pairs);
      }
    }
  }

  lemma SamePosition<H(!new)>(node: Combine<H>, a: seq<H>, b: seq<H>, i: nat, pairs: set<(H, H)>)
    requires i < |a| == |b| && Up(node, a) == Up(node, b)
    requires CollisionFree(node, pairs) && LevelPairsIn(a, pairs) && LevelPairsIn(b, pairs)
    ensures a[i] == b[i]
  {
    UpAt(node, a, i);
    UpAt(node, b, i);
    assert PairIn(b, i / 2, pairs);
    if i % 2 == 1 {
      assert i == 2 * (i / 2) + 1;
      PairDetermined(node, a, i, pairs, b[i - 1], b[i]);
    } else if i + 1 < |a| {
      assert i == 2 * (i / 2);
      PairDetermined(node, a, i, pairs, b[i], b[i + 1]);
    }
  }

  /** Two lists of one size with one root are one list. */
  lemma RootInjective<H(!new)>(node: Combine<H>, a: seq<H>, b: seq<H>)
    requires 1 <= |a| == |b| && RootHash(node, a) == RootHash(node, b)
    requires CollisionFree(node, TreePairs(node, a) + TreePairs(node, b))
    ensures a == b
  {
    var pairs := TreePairs(node, a) + TreePairs(node, b);
    LevelRootIsRoot(node, a);
    LevelRootIsRoot(node, b);
    LevelsInTree(node, a, pairs);
    LevelsInTree(node, b, pairs);
    LevelRootInjective(node, a, b, pairs);
  }

  /** A consistency proof between two trees: the older list is a prefix. */
  lemma AppendOnly<H(!new)>(node: Combine<H>, past: seq<H>, now: seq<H>, path: seq<H>)
    requires 1 <= |past| <= |now|
    requires ConsistencyAccepted(node, |past|, |now|, path, RootHash(node, past), RootHash(node, now))
    requires CollisionFree(node, TreePairs(node, now)
             + ConsistencyPairs(node, |past|, |now|, path, RootHash(node, past)))
    requires CollisionFree(node, TreePairs(node, past) + TreePairs(node, now[..|past|]))
    ensures past == now[..|past|]
  {
    ConsistencySound(node, |past|, now, path, RootHash(node, past));
    RootInjective(node, past, now[..|past|]);
  }
}
