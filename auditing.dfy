/** Merkle-root audit seal over an ordered list of transaction strings
    (src/auditing.py).

    The digest function (SHA-256 of the UTF-8 bytes, rendered as a lower-case
    hex string) is not modelled: every member takes it as a parameter `h`.
    Properties that need more than "h is some function" say exactly what they
    assume of it in their `requires`. */
module Auditing {

  datatype Option<T> = None | Some(value: T)

  /** Length of a SHA-256 hex digest. */
  const DigestLength: nat := 64

  /** Hash every element, keeping the order. */
  function HashEach(h: string -> string, s: seq<string>): (r: seq<string>)
  {
    seq(|s|, i requires 0 <= i < |s| => h(s[i]))
  }

  /** A level of odd length gets its last node duplicated before pairing. */
  function Pad(level: seq<string>): (r: seq<string>)
    ensures |r| % 2 == 0
  {
    if |level| % 2 != 0 then level + [level[|level| - 1]] else level
  }

  /** The concatenations `p[0] + p[1]`, `p[2] + p[3]`, ... in left-to-right order. */
  function PairConcats(p: seq<string>): (r: seq<string>)
  {
    seq(|p| / 2, k requires 0 <= k < |p| / 2 => p[2 * k] + p[2 * k + 1])
  }

  /** One pass of the reduction: pad, pair neighbours, hash each pair.
      The new level has ceil(n/2) nodes, strictly fewer when n > 1. */
  function NextLevel(h: string -> string, level: seq<string>): (r: seq<string>)
    ensures |r| == (|level| + 1) / 2
    ensures |level| > 1 ==> |r| < |level|
    ensures |level| > 0 ==> |r| > 0
  {
    HashEach(h, PairConcats(Pad(level)))
  }

  /** The single node left after repeatedly reducing a non-empty level. */
  function RootOf(h: string -> string, level: seq<string>): (r: string)
    requires |level| >= 1
    decreases |level|
  {
    if |level| == 1 then level[0] else RootOf(h, NextLevel(h, level))
  }

  /** Specification of compute_merkle_root. */
  function MerkleRoot(h: string -> string, ids: seq<string>): (r: Option<string>)
    ensures r.None? <==> ids == []
    ensures |ids| == 1 ==> r == Some(h(ids[0]))
  {
    if ids == [] then None else Some(RootOf(h, HashEach(h, ids)))
  }

  /** compute_merkle_root, step by step: hash the leaves, then reduce one
      level per pass, padding an odd level in place, until one node is left. */
  method ComputeMerkleRoot(h: string -> string, transactionIds: seq<string>)
    returns (root: Option<string>)
    ensures root == MerkleRoot(h, transactionIds)
    ensures root.None? <==> transactionIds == []
  {
    if transactionIds == [] {
      return None;
    }
    var hashed := HashEach(h, transactionIds);
    while |hashed| > 1
      invariant |hashed| >= 1
      invariant RootOf(h, hashed) == RootOf(h, HashEach(h, transactionIds))
      decreases |hashed|
    {
      ghost var current := hashed;
      if |hashed| % 2 != 0 {
        hashed := hashed + [hashed[|hashed| - 1]];
      }
      assert hashed == Pad(current);
      var nextLevel := HashPairs(h, hashed);
      assert nextLevel == NextLevel(h, current);
      assert RootOf(h, current) == RootOf(h, nextLevel);
      hashed := nextLevel;
    }
    root := Some(hashed[0]);
  }

  /** The inner pass: hash the concatenation of each neighbouring pair, left to right. */
  method HashPairs(h: string -> string, level: seq<string>) returns (nextLevel: seq<string>)
    requires |level| % 2 == 0
    ensures |nextLevel| == |level| / 2
    ensures forall k :: 0 <= k < |nextLevel| ==> nextLevel[k] == h(level[2 * k] + level[2 * k + 1])
    ensures nextLevel == HashEach(h, PairConcats(level))
  {
    nextLevel := [];
    var i := 0;
    while i < |level|
      invariant 0 <= i <= |level| && i % 2 == 0
      invariant |nextLevel| == i / 2
      invariant forall k :: 0 <= k < |nextLevel| ==> nextLevel[k] == h(level[2 * k] + level[2 * k + 1])
    {
      var pairConcatenated := level[i] + level[i + 1];
      nextLevel := nextLevel + [h(pairConcatenated)];
      i := i + 2;
    }
  }

  /** Odd-level duplication is invisible: for an odd list of at least three
      entries, repeating the last entry explicitly gives the same root. */
  lemma {:induction false} OddPaddingIsInvisible(h: string -> string, ids: seq<string>)
    requires |ids| % 2 == 1 && |ids| > 1
    ensures MerkleRoot(h, ids) == MerkleRoot(h, ids + [ids[|ids| - 1]])
  {
    var leaves := HashEach(h, ids);
    var padded := ids + [ids[|ids| - 1]];
    assert HashEach(h, padded) == Pad(leaves);
    assert Pad(Pad(leaves)) == Pad(leaves);
    assert NextLevel(h, HashEach(h, padded)) == NextLevel(h, leaves);
    assert RootOf(h, HashEach(h, padded)) == RootOf(h, NextLevel(h, HashEach(h, padded)));
  }

  /** The smallest instance: three transactions seal like four with the third repeated. */
  lemma ThreeLikeFour(h: string -> string, a: string, b: string, c: string)
    ensures MerkleRoot(h, [a, b, c]) == MerkleRoot(h, [a, b, c, c])
  {
    OddPaddingIsInvisible(h, [a, b, c]);
    assert [a, b, c] + [c] == [a, b, c, c];
  }

  // ---------------------------------------------------------------------
  // Tamper evidence

  /** Every output of `h` has the fixed length of a hex digest. */
  ghost predicate FixedLengthDigests(h: string -> string)
  {
    forall s :: |h(s)| == DigestLength
  }

  /** `h` maps no input of `a` and input of `b` to the same digest unless the inputs are equal. */
  ghost predicate NoCollisionBetween(h: string -> string, a: set<string>, b: set<string>)
  {
    forall x, y :: x in a && y in b && h(x) == h(y) ==> x == y
  }

  /** The strings hashed above the leaf layer while reducing `level` to its root. */
  ghost function PairInputs(h: string -> string, level: seq<string>): set<string>
    decreases |level|
  {
    if |level| <= 1 then {}
    else (set c | c in PairConcats(Pad(level))) + PairInputs(h, NextLevel(h, level))
  }

  /** Every string `h` is applied to while computing the root of `ids`. */
  ghost function HashInputs(h: string -> string, ids: seq<string>): set<string>
  {
    (set x | x in ids) + PairInputs(h, HashEach(h, ids))
  }

  ghost predicate AllDigests(level: seq<string>)
  {
    forall i :: 0 <= i < |level| ==> |level[i]| == DigestLength
  }

  /** Concatenation of equal-length prefixes splits uniquely. */
  lemma {:induction false} ConcatSplit(a: string, b: string, c: string, d: string)
    requires |a| == |c| && a + b == c + d
    ensures a == c && b == d
  {
    assert a == (a + b)[..|a|];
    assert c == (c + d)[..|c|];
    assert b == (a + b)[|a|..];
    assert d == (c + d)[|c|..];
  }

  /** One pass keeps two different levels of digests different, provided no
      two of the pair concatenations hashed in that pass collide. */
  lemma {:induction false} NextLevelsDiffer(h: string -> string, l1: seq<string>, l2: seq<string>)
    requires |l1| == |l2| > 1 && l1 != l2
    requires AllDigests(l1) && AllDigests(l2)
    requires NoCollisionBetween(h, set c | c in PairConcats(Pad(l1)), set c | c in PairConcats(Pad(l2)))
    ensures NextLevel(h, l1) != NextLevel(h, l2)
  {
    var i :| 0 <= i < |l1| && l1[i] != l2[i];
    var p1, p2 := Pad(l1), Pad(l2);
    var j := i / 2;
    assert 2 * j + 1 < |p1| && 2 * j < |l1|;
    assert p1[i] != p2[i];
    var c1, c2 := PairConcats(p1)[j], PairConcats(p2)[j];
    assert c1 == p1[2 * j] + p1[2 * j + 1] && c2 == p2[2 * j] + p2[2 * j + 1];
    assert p1[2 * j] == l1[2 * j] && p2[2 * j] == l2[2 * j];
    assert i == 2 * j || i == 2 * j + 1;
    if c1 == c2 {
      ConcatSplit(p1[2 * j], p1[2 * j + 1], p2[2 * j], p2[2 * j + 1]);
      assert false;
    }
    assert NextLevel(h, l1)[j] == h(c1) && NextLevel(h, l2)[j] == h(c2);
  }

  /** Two different levels of digests of the same length reduce to different
      roots, provided no hash collision occurs between the two reductions. */
  lemma {:induction false} RootsDiffer(h: string -> string, l1: seq<string>, l2: seq<string>)
    requires FixedLengthDigests(h)
    requires |l1| == |l2| >= 1 && l1 != l2
    requires AllDigests(l1) && AllDigests(l2)
    requires NoCollisionBetween(h, PairInputs(h, l1), PairInputs(h, l2))
    ensures RootOf(h, l1) != RootOf(h, l2)
    decreases |l1|
  {
    if |l1| == 1 {
      assert l1 == [l1[0]] && l2 == [l2[0]];
    } else {
      NextLevelsDiffer(h, l1, l2);
      var n1, n2 := NextLevel(h, l1), NextLevel(h, l2);
      assert AllDigests(n1) && AllDigests(n2);
      assert PairInputs(h, n1) <= PairInputs(h, l1) && PairInputs(h, n2) <= PairInputs(h, l2);
      RootsDiffer(h, n1, n2);
    }
  }

  /** Tamper evidence: changing any entry of the list, or the order of its
      entries, while keeping its length, changes the Merkle root, as long as
      SHA-256 yields no collision between the two computations. */
  lemma {:induction false} TamperEvident(h: string -> string, ids: seq<string>, tampered: seq<string>)
    requires FixedLengthDigests(h)
    requires |ids| == |tampered| && ids != tampered
    requires NoCollisionBetween(h, HashInputs(h, ids), HashInputs(h, tampered))
    ensures MerkleRoot(h, ids) != MerkleRoot(h, tampered)
  {
    var i :| 0 <= i < |ids| && ids[i] != tampered[i];
    assert ids[i] in HashInputs(h, ids) && tampered[i] in HashInputs(h, tampered);
    var l1, l2 := HashEach(h, ids), HashEach(h, tampered);
    assert l1[i] != l2[i];
    RootsDiffer(h, l1, l2);
  }
}
