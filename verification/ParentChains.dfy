/** Parent chains over a map from each job name to the name of its parent, which is empty for a job without one. */
module ParentChains {

  type Parents = map<string, string>

  /** Does the chain of parents that starts at `n` reach a job without a parent after exactly `k` moves? */
  predicate ReachesRoot(parents: Parents, n: string, k: nat)
    decreases k
  {
    n in parents && if k == 0 then parents[n] == "" else parents[n] != "" && ReachesRoot(parents, parents[n], k - 1)
  }

  ghost predicate Rooted(parents: Parents, n: string) {
    exists k: nat :: ReachesRoot(parents, n, k)
  }

  /** Every chain reaches a root, so that no parent is missing and no chain runs in a circle. */
  ghost predicate Grounded(parents: Parents) {
    forall n {:trigger Rooted(parents, n)} | n in parents :: Rooted(parents, n)
  }

  /** Is `a` reached from `n` by `k` moves to the parent? */
  predicate AtDistance(parents: Parents, a: string, n: string, k: nat)
    decreases k
  {
    if k == 0 then a == n else n in parents && parents[n] != "" && AtDistance(parents, a, parents[n], k - 1)
  }

  /** `a` is `n` itself, its parent, the parent of its parent, and so on. */
  ghost predicate OnChain(parents: Parents, a: string, n: string) {
    exists k: nat :: AtDistance(parents, a, n, k)
  }

  predicate RankFalls(parents: Parents, rank: map<string, nat>, n: string)
    requires rank.Keys == parents.Keys && n in parents
  {
    parents[n] != "" ==> parents[n] in parents && rank[parents[n]] < rank[n]
  }

  /** A rank certifies that the chains are grounded: it falls with every move to the parent. */
  ghost predicate Ranks(parents: Parents, rank: map<string, nat>) {
    && rank.Keys == parents.Keys
    && forall n {:trigger RankFalls(parents, rank, n)} | n in parents :: RankFalls(parents, rank, n)
  }

  lemma {:induction false} DistanceUnique(parents: Parents, n: string, j: nat, k: nat)
    requires ReachesRoot(parents, n, j) && ReachesRoot(parents, n, k)
    ensures j == k
    decreases j
  {
    if j != 0 {
      DistanceUnique(parents, parents[n], j - 1, k - 1);
    }
  }

  lemma {:induction false} RankedIsRooted(parents: Parents, rank: map<string, nat>, n: string)
    requires Ranks(parents, rank) && n in parents
    ensures Rooted(parents, n)
    decreases rank[n]
  {
    assert RankFalls(parents, rank, n);
    if parents[n] == "" {
      assert ReachesRoot(parents, n, 0);
    } else {
      RankedIsRooted(parents, rank, parents[n]);
      var k: nat :| ReachesRoot(parents, parents[n], k);
      assert ReachesRoot(parents, n, k + 1);
    }
  }

  /** The number of moves to the root is a rank of a grounded map. */
  lemma GroundedHasRank(parents: Parents) returns (rank: map<string, nat>)
    requires Grounded(parents)
    ensures Ranks(parents, rank)
    ensures forall n | n in parents :: ReachesRoot(parents, n, rank[n])
  {
    assert forall n | n in parents :: Rooted(parents, n);
    rank := map n | n in parents :: var k: nat :| ReachesRoot(parents, n, k); k;
    forall n | n in parents && parents[n] != ""
      ensures RankFalls(parents, rank, n)
    {
      assert ReachesRoot(parents, parents[n], rank[n] - 1);
      DistanceUnique(parents, parents[n], rank[n] - 1, rank[parents[n]]);
    }
  }

  lemma RankedIsGrounded(parents: Parents, rank: map<string, nat>)
    requires Ranks(parents, rank)
    ensures Grounded(parents)
  {
    forall n | n in parents ensures Rooted(parents, n) {
      RankedIsRooted(parents, rank, n);
    }
  }

  /** A rank falls along the chain. */
  lemma {:induction false} RankAlongChain(parents: Parents, rank: map<string, nat>, a: string, n: string, k: nat)
    requires Ranks(parents, rank) && AtDistance(parents, a, n, k) && n in parents
    ensures a in parents && rank[a] + k <= rank[n]
    decreases k
  {
    if k > 0 {
      assert RankFalls(parents, rank, n);
      RankAlongChain(parents, rank, a, parents[n], k - 1);
    }
  }

  /** A chain that does not visit `j` is the same for every parent of `j`. */
  lemma {:induction false} ChainElsewhere(parents: Parents, j: string, p: string, a: string, n: string, k: nat)
    requires AtDistance(parents, a, n, k)
    requires forall i: nat | i < k :: !AtDistance(parents, j, n, i)
    ensures AtDistance(parents[j := p], a, n, k)
    decreases k
  {
    if k > 0 {
      assert !AtDistance(parents, j, n, 0);
      forall i: nat | i < k - 1 ensures !AtDistance(parents, j, parents[n], i) {
        assert !AtDistance(parents, j, n, i + 1);
      }
      ChainElsewhere(parents, j, p, a, parents[n], k - 1);
    }
  }

  /** The first visit of `j` on a chain. */
  lemma {:induction false} FirstVisit(parents: Parents, j: string, n: string, k: nat) returns (i: nat)
    requires AtDistance(parents, j, n, k)
    ensures i <= k && AtDistance(parents, j, n, i)
    ensures forall h: nat | h < i :: !AtDistance(parents, j, n, h)
  {
    if h: nat :| h < k && AtDistance(parents, j, n, h) {
      i := FirstVisit(parents, j, n, h);
    } else {
      i := k;
    }
  }

  /** Giving `j` a parent keeps a map grounded exactly when `j` is not on the chain of that parent. */
  lemma ReparentKeepsGroundedIff(parents: Parents, j: string, p: string)
    requires Grounded(parents) && p in parents && p != "" && j != p
    requires j !in parents ==> forall n | n in parents :: parents[n] != j
    ensures Grounded(parents[j := p]) <==> !OnChain(parents, j, p)
  {
    var moved := parents[j := p];
    if OnChain(parents, j, p) {
      var k: nat :| AtDistance(parents, j, p, k);
      var i := FirstVisit(parents, j, p, k);
      ChainElsewhere(parents, j, p, j, p, i);
      if Grounded(moved) {
        var rank := GroundedHasRank(moved);
        assert RankFalls(moved, rank, j);
        RankAlongChain(moved, rank, j, p, i);
        assert false;
      }
    } else {
      var rank := GroundedHasRank(parents);
      var base := rank[p] + 1;
      // Everything below `j` moves behind `p`.
      var moves := map n | n in moved ::
        if n == j then (if j in rank then rank[j] else 0) + base
        else if OnChain(parents, j, n) then rank[n] + base else rank[n];
      forall n | n in moved && moved[n] != ""
        ensures RankFalls(moved, moves, n)
      {
        assert n in parents ==> RankFalls(parents, rank, n);
        assert AtDistance(parents, j, j, 0);
        if n != j && OnChain(parents, j, n) {
          var k: nat :| AtDistance(parents, j, n, k);
          assert AtDistance(parents, j, parents[n], k - 1);
        } else if n != j && OnChain(parents, j, parents[n]) {
          var k: nat :| AtDistance(parents, j, parents[n], k);
          assert AtDistance(parents, j, n, k + 1);
        }
      }
      RankedIsGrounded(moved, moves);
    }
  }

  /** Making `j` a root always keeps a map grounded. */
  lemma RootKeepsGrounded(parents: Parents, j: string)
    requires Grounded(parents)
    ensures Grounded(parents[j := ""])
  {
    var rank := GroundedHasRank(parents);
    var moved := parents[j := ""];
    var moves := map n | n in moved :: if n in rank then rank[n] else 0;
    forall n | n in moved ensures RankFalls(moved, moves, n) {
      assert n in parents ==> RankFalls(parents, rank, n);
    }
    RankedIsGrounded(moved, moves);
  }

  /** A job that is nobody's parent is on no chain but its own. */
  lemma {:induction false} LeafOnChain(parents: Parents, j: string, n: string, k: nat)
    requires forall m | m in parents :: parents[m] != j
    requires j != "" && AtDistance(parents, j, n, k)
    ensures n == j
    decreases k
  {
    if k > 0 {
      LeafOnChain(parents, j, parents[n], k - 1);
    }
  }

  /** Removing a job that is nobody's parent keeps a map grounded. */
  lemma LeafRemovalKeepsGrounded(parents: Parents, j: string)
    requires Grounded(parents) && forall n | n in parents :: parents[n] != j
    ensures Grounded(parents - {j})
  {
    var rank := GroundedHasRank(parents);
    forall n | n in parents - {j} ensures RankFalls(parents - {j}, rank - {j}, n) {
      assert RankFalls(parents, rank, n);
    }
    RankedIsGrounded(parents - {j}, rank - {j});
  }

  lemma {:induction false} HighestRank(rank: map<string, nat>) returns (top: string)
    requires rank != map[]
    ensures top in rank && forall n | n in rank :: rank[n] <= rank[top]
    decreases |rank|
  {
    var n :| n in rank;
    var rest := rank - {n};
    if rest == map[] {
      top := n;
      assert forall m | m in rank :: m == n || m in rest;
    } else {
      assert n !in rest && rest.Keys < rank.Keys;
      top := HighestRank(rest);
      if rank[top] < rank[n] { top := n; }
      assert forall m | m in rank :: m == n || m in rest;
    }
  }

  /** A grounded map that is not empty has a job that is nobody's parent. */
  lemma GroundedHasLeaf(parents: Parents) returns (leaf: string)
    requires Grounded(parents) && parents != map[]
    ensures leaf in parents && forall n | n in parents && parents[n] != "" :: parents[n] != leaf
  {
    var rank := GroundedHasRank(parents);
    leaf := HighestRank(rank);
    forall n | n in parents && parents[n] != "" ensures parents[n] != leaf {
      assert RankFalls(parents, rank, n);
    }
  }
}
