/** The branch of a job against the merkle tree of its block: folding it gives the tree's root. */
module Merkle {
  import opened Bytes
  import opened Sha256
  import opened Header
  import opened Hex
  import opened Work
  import opened Pool

  // ----- the tree -----

  /** The node over two neighbours. */
  function Node(left: Hash32, right: Hash32): Hash32 {
    DoubleSha(left + right)
  }

  /** The level above: neighbours hashed left before right, the last leaf of an odd level with itself. */
  function Above(level: seq<Hash32>): (up: seq<Hash32>)
    ensures |up| == (|level| + 1) / 2
  {
    if level == [] then []
    else if |level| == 1 then [Node(level[0], level[0])]
    else [Node(level[0], level[1])] + Above(level[2..])
  }

  /** The root of the tree over a level of leaves. */
  function Root(level: seq<Hash32>): Hash32
    requires level != []
    decreases |level|
  {
    if |level| == 1 then level[0] else Root(Above(level))
  }

  /** The right-hand siblings on the way from the first leaf to the root. */
  function FirstBranch(level: seq<Hash32>): (branch: seq<Hash32>)
    requires level != []
    decreases |level|
  {
    if |level| == 1 then [] else [level[1]] + FirstBranch(Above(level))
  }

  /** A branch as the strings of a job. */
  function BranchHex(branch: seq<Hash32>): (h: seq<string>)
    ensures |h| == |branch|
  {
    seq(|branch|, i requires 0 <= i < |branch| => HexOf(branch[i]))
  }

  lemma BranchHexValid(branch: seq<Hash32>)
    ensures ValidBranch(BranchHex(branch))
  {
    hide HexOf, IsLowerHex;
    forall i | 0 <= i < |branch| ensures HexWithin(BranchHex(branch)[i], 64) {
      HexOfIsLowerHex(branch[i]);
    }
  }

  /** Folding the branch of the first leaf into that leaf gives the root of the tree. */
  lemma {:induction false} FoldIsRoot(level: seq<Hash32>)
    requires level != []
    ensures ValidBranch(BranchHex(FirstBranch(level)))
    ensures Fold(level[0], BranchHex(FirstBranch(level))) == Root(level)
    decreases |level|
  {
    hide HexOf, BytesOfHex, DoubleSha, ValidBranch, Fold, ServerRoot;
    var branch := FirstBranch(level);
    BranchHexValid(branch);
    FoldIsServerRoot(level[0], BranchHex(branch));
    if |level| == 1 {
      NoBranch(level[0]);
    } else {
      var up := Above(level);
      FoldIsRoot(up);
      FoldIsServerRoot(up[0], BranchHex(FirstBranch(up)));
      OneUp(level[0], level[1], FirstBranch(up));
    }
  }

  lemma NoBranch(node: Hash32)
    ensures ValidBranch(BranchHex([])) && ServerRoot(node, BranchHex([])) == node
  {
  }

  lemma OneUp(node: Hash32, sibling: Hash32, rest: seq<Hash32>)
    requires ValidBranch(BranchHex([sibling] + rest)) && ValidBranch(BranchHex(rest))
    ensures ServerRoot(node, BranchHex([sibling] + rest)) == ServerRoot(Node(node, sibling), BranchHex(rest))
  {
    hide HexOf, BytesOfHex, DoubleSha, ValidBranch;
    HexRoundTrip(sibling);
    HexOfIsLowerHex(sibling);
    assert BranchHex([sibling] + rest)[1..] == BranchHex(rest);
  }

  /** The branch does not depend on the first leaf, so one branch serves every coinbase. */
  lemma {:induction false} BranchIgnoresFirst(level: seq<Hash32>, leaf: Hash32)
    requires level != []
    ensures FirstBranch(level[0 := leaf]) == FirstBranch(level)
    decreases |level|
  {
    hide DoubleSha;
    if |level| > 1 {
      AboveIgnoresFirst(level, leaf);
      BranchIgnoresFirst(Above(level), Node(leaf, level[1]));
    }
  }

  lemma AboveIgnoresFirst(level: seq<Hash32>, leaf: Hash32)
    requires |level| > 1
    ensures Above(level[0 := leaf]) == Above(level)[0 := Node(leaf, level[1])]
  {
    hide DoubleSha;
    assert level[0 := leaf][2..] == level[2..];
  }

  /**
   For a block with the given transaction hashes, the first being any coinbase's: when the job
   carries the branch of the first leaf, the root of the prepared work is the root of the tree with
   the prepared coinbase in first place, whatever the counter.
   */
  lemma PreparedRootIsTreeRoot(job: MiningJob, sub: Subscription, counter: nat, leaves: seq<Hash32>)
    requires CanPrepare(job, sub, counter) && leaves != [] && job.merkleBranch == BranchHex(FirstBranch(leaves))
    ensures var p := Prepared(job, sub, counter);
            p.merkleRoot == Root(leaves[0 := DoubleSha(p.coinbase.bytes)])
  {
    hide HexOf, BytesOfHex, DoubleSha, ValidBranch, Fold, FirstBranch, Root, BeBytes, NewTemplate, FlipWords,
         HeaderFields, MaxExtranonce2, IsLowerHex, CoinbaseHex;
    var p := Prepared(job, sub, counter);
    var leaf := DoubleSha(p.coinbase.bytes);
    BranchIgnoresFirst(leaves, leaf);
    FoldIsRoot(leaves[0 := leaf]);
  }
}
