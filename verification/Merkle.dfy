/** The Merkle tree of a block: the bottom-up level loop, the top-down tree it computes, and how
    far the root determines the leaves. */
module Merkle {
  import opened Primitives

  /** Number of nodes on a level above n leaves. */
  function Width(n: nat, level: nat): (w: nat)
    ensures n > 0 ==> w > 0
  {
    if level == 0 then n else (Width(n, level - 1) + 1) / 2
  }

  /** The level that holds the root alone. */
  function Height(n: nat): nat {
    if n <= 1 then 0 else 1 + Height((n + 1) / 2)
  }

  /** The right child of node i, as an index on the level below: the last node where there is
      no other. */
  function RightChild(n: nat, level: nat, i: nat): (r: nat)
    requires 0 < level && i < Width(n, level)
    ensures 2 * i <= r < Width(n, level - 1)
  {
    Min(2 * i + 1, Width(n, level - 1) - 1)
  }

  /** The tree read from the root down. */
  function Node(leaves: seq<string>, level: nat, i: nat): string
    requires i < Width(|leaves|, level)
    decreases level, 1
  {
    if level == 0 then leaves[i] else Sha256(Preimage(leaves, level, i))
  }

  /** The string that is hashed for an inner node. */
  function Preimage(leaves: seq<string>, level: nat, i: nat): string
    requires 0 < level && i < Width(|leaves|, level)
    decreases level, 0
  {
    Node(leaves, level - 1, 2 * i) + Node(leaves, level - 1, RightChild(|leaves|, level, i))
  }

  lemma {:induction false} WidthStep(n: nat, level: nat)
    requires n > 0
    ensures Width((n + 1) / 2, level) == Width(n, level + 1)
  {
    if level > 0 {
      WidthStep(n, level - 1);
    }
  }

  lemma {:induction false} RootLevel(n: nat)
    requires n > 0
    ensures Width(n, Height(n)) == 1
    ensures forall level | 0 <= level < Height(n) :: Width(n, level) > 1
  {
    if n > 1 {
      RootLevel((n + 1) / 2);
      WidthStep(n, Height(n) - 1);
      forall level | 0 <= level < Height(n)
        ensures Width(n, level) > 1
      {
        if level > 0 {
          WidthStep(n, level - 1);
        }
      }
    }
  }

  /** The root of the top-down tree; no leaves give the hash of the empty string. */
  function Root(leaves: seq<string>): string {
    if leaves == [] then Sha256("")
    else Node(leaves, Height(|leaves|), 0)
  }

  ghost predicate IsLevel(leaves: seq<string>, level: nat, hashes: seq<string>) {
    && |hashes| == Width(|leaves|, level)
    && forall i | 0 <= i < |hashes| :: hashes[i] == Node(leaves, level, i)
  }

  ghost predicate IsNextLevel(hashes: seq<string>, next: seq<string>) {
    && |next| == (|hashes| + 1) / 2
    && forall i | 0 <= i < |next| :: next[i] == Sha256(hashes[2 * i] + hashes[Min(2 * i + 1, |hashes| - 1)])
  }

  lemma LevelStep(leaves: seq<string>, level: nat, hashes: seq<string>, next: seq<string>)
    requires IsLevel(leaves, level, hashes) && IsNextLevel(hashes, next)
    ensures IsLevel(leaves, level + 1, next)
  {
    forall i | 0 <= i < |next|
      ensures next[i] == Node(leaves, level + 1, i)
    {
      var r := RightChild(|leaves|, level + 1, i);
      assert hashes[2 * i] == Node(leaves, level, 2 * i) && hashes[r] == Node(leaves, level, r);
    }
  }

  /** One round of the level loop. */
  method NextLevel(hashes: seq<string>) returns (newLevel: seq<string>)
    ensures IsNextLevel(hashes, newLevel)
  {
    newLevel := [];
    var i := 0;
    while i < |hashes|
      invariant i == 2 * |newLevel| <= |hashes| + 1
      invariant forall j | 0 <= j < |newLevel| ::
                  newLevel[j] == Sha256(hashes[2 * j] + hashes[Min(2 * j + 1, |hashes| - 1)])
    {
      if i + 1 < |hashes| {
        newLevel := newLevel + [Sha256(hashes[i] + hashes[i + 1])];
      } else {
        newLevel := newLevel + [Sha256(hashes[i] + hashes[i])];
      }
      i := i + 2;
    }
  }

  /** The level loop. It terminates, and it computes the root of the top-down tree. */
  method ComputeRoot(leaves: seq<string>) returns (root: string)
    ensures root == Root(leaves)
  {
    if leaves == [] {
      return Sha256("");
    }
    var hashes := leaves;
    ghost var level := 0;
    RootLevel(|leaves|);
    while |hashes| > 1
      invariant 0 <= level <= Height(|leaves|)
      invariant IsLevel(leaves, level, hashes)
      decreases |hashes|
    {
      var newLevel := NextLevel(hashes);
      LevelStep(leaves, level, hashes, newLevel);
      hashes := newLevel;
      level := level + 1;
    }
    root := hashes[0];
  }

  // ----- the root determines the leaves -----

  /** The leaves are equally long, one by one: digests always are, identifiers of rewards need not
      be. */
  predicate SameLengths(a: seq<string>, b: seq<string>) {
    |a| == |b| && forall i | 0 <= i < |a| :: |a[i]| == |b[i]|
  }

  lemma NodeLengths(a: seq<string>, b: seq<string>, level: nat, i: nat)
    requires SameLengths(a, b) && i < Width(|a|, level)
    ensures |Node(a, level, i)| == |Node(b, level, i)|
  {
  }

  ghost predicate SameNode(a: seq<string>, b: seq<string>, level: nat, i: nat)
    requires |a| == |b| && i < Width(|a|, level)
  {
    Node(a, level, i) == Node(b, level, i)
  }

  ghost predicate SameLevel(a: seq<string>, b: seq<string>, level: nat)
    requires |a| == |b|
  {
    forall i: nat | i < Width(|a|, level) :: SameNode(a, b, level, i)
  }

  /** The strings that the two trees hash for the same inner node collide. */
  ghost predicate CollisionAt(a: seq<string>, b: seq<string>, level: nat, i: nat)
    requires |a| == |b| && 0 < level && i < Width(|a|, level)
  {
    Collision(Preimage(a, level, i), Preimage(b, level, i))
  }

  /** The two trees, built over equally many leaves, exhibit a collision of the hash function. */
  ghost predicate TreesCollide(a: seq<string>, b: seq<string>)
    requires |a| == |b|
  {
    exists level: nat, i: nat ::
      0 < level <= Height(|a|) && i < Width(|a|, level) && CollisionAt(a, b, level, i)
  }

  lemma PreimageDetermines(a: seq<string>, b: seq<string>, level: nat, i: nat, j: nat)
    requires SameLengths(a, b) && 0 < level && i < Width(|a|, level)
    requires Preimage(a, level, i) == Preimage(b, level, i)
    requires j == 2 * i || j == RightChild(|a|, level, i)
    ensures SameNode(a, b, level - 1, j)
  {
    hide Width, Node;
    var r := RightChild(|a|, level, i);
    NodeLengths(a, b, level - 1, 2 * i);
    CutAt(Node(a, level - 1, 2 * i), Node(a, level - 1, r), Node(b, level - 1, 2 * i), Node(b, level - 1, r));
  }

  lemma {:induction false} LevelDetermines(a: seq<string>, b: seq<string>, level: nat)
    requires SameLengths(a, b) && level <= Height(|a|) && SameLevel(a, b, level)
    ensures a == b || TreesCollide(a, b)
  {
    if level == 0 {
      assert forall i: nat | i < |a| :: SameNode(a, b, 0, i) ==> a[i] == b[i];
      assert forall i: nat | i < |a| :: SameNode(a, b, 0, i);
    } else if !TreesCollide(a, b) {
      LevelBelow(a, b, level);
      LevelDetermines(a, b, level - 1);
    }
  }

  lemma SamePreimage(a: seq<string>, b: seq<string>, level: nat, i: nat)
    requires |a| == |b| && 0 < level && i < Width(|a|, level)
    requires SameNode(a, b, level, i) && !CollisionAt(a, b, level, i)
    ensures Preimage(a, level, i) == Preimage(b, level, i)
  {
  }

  lemma LevelBelow(a: seq<string>, b: seq<string>, level: nat)
    requires SameLengths(a, b) && 0 < level <= Height(|a|)
    requires SameLevel(a, b, level) && !TreesCollide(a, b)
    ensures SameLevel(a, b, level - 1)
  {
    hide Node, Preimage;
    var below := level - 1;
    forall j: nat | j < Width(|a|, below)
      ensures SameNode(a, b, below, j)
    {
      var i: nat := j / 2;
      assert SameNode(a, b, level, i) && !CollisionAt(a, b, level, i);
      SamePreimage(a, b, level, i);
      PreimageDetermines(a, b, level, i, j);
    }
  }

  /** Lists of equally many leaves with the same root are the same list exactly when their leaves
      are equally long, unless the two computations hash two colliding strings. */
  lemma RootDeterminesLeaves(a: seq<string>, b: seq<string>)
    requires Root(a) == Root(b) && |a| == |b|
    ensures TreesCollide(a, b) || (a == b <==> SameLengths(a, b))
  {
    if SameLengths(a, b) && a != [] {
      RootLevel(|a|);
      LevelDetermines(a, b, Height(|a|));
    }
  }

  /** Nothing separates two leaves: where their lengths differ the same root can mean other ones. */
  lemma LeavesRunTogether(x: string, y: string, z: string)
    ensures Root([x + y, z]) == Root([x, y + z])
  {
    assert x + y + z == x + (y + z);
    assert Width(2, 0) == 2 && Width(2, 1) == 1 && Height(2) == 1;
    assert Preimage([x + y, z], 1, 0) == x + y + z;
    assert Preimage([x, y + z], 1, 0) == x + (y + z);
  }

  /** A single leaf is its own root, whatever it is. */
  lemma SingleLeafIsRoot(leaf: string)
    ensures Root([leaf]) == leaf
  {
    assert Width(1, 0) == 1 && Height(1) == 0;
  }

  /** The length is not determined: repeating the last leaf of an odd list of at least three
      leaves keeps the root. */
  lemma RepeatedLastLeaf(leaves: seq<string>)
    requires |leaves| >= 3 && |leaves| % 2 == 1
    ensures Root(leaves + [leaves[|leaves| - 1]]) == Root(leaves)
  {
    var n := |leaves|;
    var longer := leaves + [leaves[n - 1]];
    assert (n + 1) / 2 == (n + 2) / 2;
    RootLevel(n);
    RepeatedLeafLevels(leaves, longer, Height(n), 0);
  }

  lemma {:induction false} RepeatedLeafLevels(leaves: seq<string>, longer: seq<string>, level: nat, i: nat)
    requires |leaves| % 2 == 1 && longer == leaves + [leaves[|leaves| - 1]]
    requires 0 < level && i < Width(|leaves|, level)
    ensures Width(|longer|, level) == Width(|leaves|, level)
    ensures Node(longer, level, i) == Node(leaves, level, i)
  {
    var n := |leaves|;
    if level == 1 {
      assert Width(n, 0) == n && Width(n + 1, 0) == n + 1;
      var r, r' := RightChild(n, 1, i), RightChild(n + 1, 1, i);
      assert longer[r'] == leaves[r] && longer[2 * i] == leaves[2 * i];
      assert Node(longer, 0, r') == Node(leaves, 0, r) && Node(longer, 0, 2 * i) == Node(leaves, 0, 2 * i);
    } else {
      RepeatedLeafLevels(leaves, longer, level - 1, 2 * i);
      RepeatedLeafLevels(leaves, longer, level - 1, RightChild(n, level, i));
    }
  }
}
