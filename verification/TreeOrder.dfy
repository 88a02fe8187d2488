/** The order of the tree that is built from an uploaded list: siblings, and roots, come in the order of the list. */
module TreeOrder {
  import opened Wrappers
  import opened Types
  import opened JobTree

  // The position of each name in the list.
  function Positions(jobs: seq<JobNode>): map<string, nat> {
    if jobs == [] then map[]
    else Positions(jobs[..|jobs| - 1])[jobs[|jobs| - 1].job.name := |jobs| - 1]
  }

  predicate Rising(ts: seq<Tree>, rank: map<string, nat>) {
    && (forall i | 0 <= i < |ts| :: Name(ts[i]) in rank)
    && (forall i, k | 0 <= i < k < |ts| :: rank[Name(ts[i])] < rank[Name(ts[k])])
  }

  /** The children of every job come in rising order. */
  ghost predicate AllRising(ts: seq<Tree>, rank: map<string, nat>) {
    ts != [] ==> Rising(ts[0].children, rank) && AllRising(ts[0].children, rank) && AllRising(ts[1..], rank)
  }

  // Every tree of the list comes before the bound, and so does everything below.
  ghost predicate Before(ts: seq<Tree>, rank: map<string, nat>, bound: nat) {
    ts != [] ==>
      && Name(ts[0]) in rank && rank[Name(ts[0])] < bound
      && Before(ts[0].children, rank, bound) && Before(ts[1..], rank, bound)
  }

  // Everything that is below a tree of the list comes before the bound.
  ghost predicate BelowBefore(ts: seq<Tree>, rank: map<string, nat>, bound: nat) {
    forall i | 0 <= i < |ts| :: Before(ts[i].children, rank, bound)
  }

  lemma {:induction false} AllRisingConcat(a: seq<Tree>, b: seq<Tree>, rank: map<string, nat>)
    ensures AllRising(a + b, rank) <==> AllRising(a, rank) && AllRising(b, rank)
  {
    hide Rising;
    if a == [] {
      assert a + b == b;
    } else {
      assert (a + b)[1..] == a[1..] + b;
      AllRisingConcat(a[1..], b, rank);
    }
  }

  lemma {:induction false} BeforeConcat(a: seq<Tree>, b: seq<Tree>, rank: map<string, nat>, bound: nat)
    ensures Before(a + b, rank, bound) <==> Before(a, rank, bound) && Before(b, rank, bound)
  {
    if a == [] {
      assert a + b == b;
    } else {
      assert (a + b)[1..] == a[1..] + b;
      BeforeConcat(a[1..], b, rank, bound);
    }
  }

  lemma {:induction false} BeforeMore(ts: seq<Tree>, rank: map<string, nat>, bound: nat, more: nat)
    requires Before(ts, rank, bound) && bound <= more
    ensures Before(ts, rank, more)
  {
    if ts != [] {
      BeforeMore(ts[0].children, rank, bound, more);
      BeforeMore(ts[1..], rank, bound, more);
    }
  }

  lemma {:induction false} BeforeHeads(ts: seq<Tree>, rank: map<string, nat>, bound: nat)
    requires Before(ts, rank, bound)
    ensures forall i | 0 <= i < |ts| :: Name(ts[i]) in rank && rank[Name(ts[i])] < bound
    ensures BelowBefore(ts, rank, bound)
  {
    if ts != [] {
      BeforeHeads(ts[1..], rank, bound);
      forall i | 0 <= i < |ts|
        ensures Name(ts[i]) in rank && rank[Name(ts[i])] < bound && Before(ts[i].children, rank, bound)
      {
        assert i > 0 ==> ts[i] == ts[1..][i - 1];
      }
    }
  }

  lemma RisingAppend(ts: seq<Tree>, child: Tree, rank: map<string, nat>)
    requires Rising(ts, rank) && Name(child) in rank
    requires forall i | 0 <= i < |ts| :: Name(ts[i]) in rank && rank[Name(ts[i])] < rank[Name(child)]
    ensures Rising(ts + [child], rank)
  {
  }

  lemma SameHeadsRise(ts: seq<Tree>, r: seq<Tree>, rank: map<string, nat>)
    requires SameHeads(ts, r) && Rising(ts, rank)
    ensures Rising(r, rank)
  {
    assert forall i | 0 <= i < |ts| :: Name(r[i]) == Name(ts[i]);
  }

  lemma RisingCons(t: Tree, rest: seq<Tree>, rank: map<string, nat>)
    ensures AllRising([t] + rest, rank) <==>
            Rising(t.children, rank) && AllRising(t.children, rank) && AllRising(rest, rank)
  {
    assert ([t] + rest)[1..] == rest;
  }

  lemma BelowRest(ts: seq<Tree>, rank: map<string, nat>, bound: nat)
    requires ts != [] && BelowBefore(ts, rank, bound)
    ensures Before(ts[0].children, rank, bound) && BelowBefore(ts[1..], rank, bound)
  {
    hide Before;
    assert forall i | 0 <= i < |ts[1..]| :: ts[1..][i] == ts[i + 1];
  }

  /** A child that comes after everything in the forest goes last among its siblings. */
  lemma {:induction false} InsertRises(ts: seq<Tree>, child: Tree, rank: map<string, nat>)
    requires Insert(ts, child).Some? && AllRising(ts, rank) && AllRising([child], rank)
    requires Name(child) in rank && BelowBefore(ts, rank, rank[Name(child)])
    ensures AllRising(Insert(ts, child).value, rank)
  {
    hide Rising, Before, BelowBefore;
    var head, tail := ts[0], ts[1..];
    BelowRest(ts, rank, rank[Name(child)]);
    BeforeHeads(head.children, rank, rank[Name(child)]);
    assert ts == [head] + tail;
    RisingCons(head, tail, rank);
    if Parent(child) == Name(head) {
      RisingAppend(head.children, child, rank);
      AllRisingConcat(head.children, [child], rank);
      RisingCons(Tree(head.node, head.children + [child]), tail, rank);
    } else if Insert(head.children, child).Some? {
      var children := Insert(head.children, child).value;
      InsertRises(head.children, child, rank);
      InsertAdds(head.children, child);
      SameHeadsRise(head.children, children, rank);
      RisingCons(Tree(head.node, children), tail, rank);
    } else {
      InsertRises(tail, child, rank);
      RisingCons(head, Insert(tail, child).value, rank);
    }
  }

  lemma {:induction false} AttachRises(ts: seq<Tree>, child: Tree, rank: map<string, nat>)
    requires Attach(ts, child).Some? && AllRising(ts, rank) && AllRising([child], rank)
    requires Name(child) in rank && BelowBefore(ts, rank, rank[Name(child)])
    ensures AllRising(Attach(ts, child).value, rank)
  {
    hide Rising, Before, BelowBefore, Insert;
    var first, tail := ts[0], ts[1..];
    BelowRest(ts, rank, rank[Name(child)]);
    assert ts == [first] + tail;
    RisingCons(first, tail, rank);
    if Name(first) != Name(child) && Insert([first], child).Some? {
      RisingCons(first, [], rank);
      assert [first] + [] == [first];
      OneBelow(first, rank, rank[Name(child)]);
      InsertRises([first], child, rank);
      AllRisingConcat(Insert([first], child).value, tail, rank);
    } else {
      AttachRises(tail, child, rank);
      RisingCons(first, Attach(tail, child).value, rank);
    }
  }

  lemma OneBelow(t: Tree, rank: map<string, nat>, bound: nat)
    requires Before(t.children, rank, bound)
    ensures BelowBefore([t], rank, bound)
  {
  }

  // Inserting keeps a bound that the child keeps too.
  lemma {:induction false} InsertStaysBefore(ts: seq<Tree>, child: Tree, rank: map<string, nat>, bound: nat)
    requires Insert(ts, child).Some? && Before([child], rank, bound)
    ensures Before(ts, rank, bound) ==> Before(Insert(ts, child).value, rank, bound)
    ensures BelowBefore(ts, rank, bound) ==> BelowBefore(Insert(ts, child).value, rank, bound)
  {
    var head, tail, r := ts[0], ts[1..], Insert(ts, child).value;
    assert ts == [head] + tail;
    if Parent(child) == Name(head) {
      BeforeConcat(head.children, [child], rank, bound);
      assert r[1..] == tail;
    } else if Insert(head.children, child).Some? {
      InsertStaysBefore(head.children, child, rank, bound);
      assert r[1..] == tail;
    } else {
      InsertStaysBefore(tail, child, rank, bound);
      assert r[1..] == Insert(tail, child).value;
      BelowCons(head, tail, rank, bound);
      BelowCons(head, r[1..], rank, bound);
    }
  }

  lemma BelowCons(t: Tree, rest: seq<Tree>, rank: map<string, nat>, bound: nat)
    ensures BelowBefore([t] + rest, rank, bound) <==> Before(t.children, rank, bound) && BelowBefore(rest, rank, bound)
  {
    hide Before;
    var all := [t] + rest;
    if BelowBefore(all, rank, bound) {
      assert all[0] == t && forall i | 0 <= i < |rest| :: rest[i] == all[i + 1];
    }
  }

  lemma {:induction false} AttachStaysBelow(ts: seq<Tree>, child: Tree, rank: map<string, nat>, bound: nat)
    requires Attach(ts, child).Some? && Before([child], rank, bound) && BelowBefore(ts, rank, bound)
    ensures BelowBefore(Attach(ts, child).value, rank, bound)
  {
    hide Before, BelowBefore, Insert;
    var first, tail := ts[0], ts[1..];
    assert ts == [first] + tail;
    BelowCons(first, tail, rank, bound);
    if Name(first) != Name(child) && Insert([first], child).Some? {
      OneBelow(first, rank, bound);
      InsertStaysBefore([first], child, rank, bound);
      InsertAdds([first], child);
      var one := Insert([first], child).value;
      assert one == [one[0]] + [];
      BelowCons(one[0], [], rank, bound);
      BelowCons(one[0], tail, rank, bound);
      assert Attach(ts, child).value == [one[0]] + tail;
    } else {
      AttachStaysBelow(tail, child, rank, bound);
      BelowCons(first, Attach(tail, child).value, rank, bound);
    }
  }

  // What a round of the builder finds: entries in rising order, and below them only jobs that came earlier.
  ghost predicate Sorted(ts: seq<Tree>, j: nat, rank: map<string, nat>) {
    && Rising(ts, rank) && AllRising(ts, rank)
    && (j < |ts| ==> BelowBefore(ts, rank, rank[Name(ts[j])]))
  }

  lemma WithoutRises(ts: seq<Tree>, j: nat, rank: map<string, nat>)
    requires j < |ts| && Rising(ts, rank) && AllRising(ts, rank)
    ensures Rising(Without(ts, j), rank) && AllRising(Without(ts, j), rank) && AllRising([ts[j]], rank)
  {
    assert ts == ts[..j] + ([ts[j]] + ts[j + 1..]);
    AllRisingConcat(ts[..j], [ts[j]] + ts[j + 1..], rank);
    AllRisingConcat([ts[j]], ts[j + 1..], rank);
    AllRisingConcat(ts[..j], ts[j + 1..], rank);
    hide AllRising;
    var r := Without(ts, j);
    forall i | 0 <= i < |r| ensures r[i] == ts[if i < j then i else i + 1] {
    }
  }

  lemma {:induction false} BuildRises(libs: Libs, ts: seq<Tree>, j: nat, rank: map<string, nat>)
    requires j <= |ts| && Sorted(ts, j, rank) && BuildTree(libs, ts, j).Ok?
    ensures Rising(BuildTree(libs, ts, j).value, rank) && AllRising(BuildTree(libs, ts, j).value, rank)
    decreases |ts| - j
  {
    hide Validate, Attach, Sorted;
    SortedRises(ts, j, rank);
    if j < |ts| {
      if Parent(ts[j]) == "" {
        NextIsSorted(ts, j, rank);
        BuildRises(libs, ts, j + 1, rank);
      } else {
        MovedIsSorted(ts, j, rank);
        BuildRises(libs, Without(Attach(ts, ts[j]).value, j), j, rank);
      }
    }
  }

  lemma SortedRises(ts: seq<Tree>, j: nat, rank: map<string, nat>)
    requires Sorted(ts, j, rank)
    ensures Rising(ts, rank) && AllRising(ts, rank)
  {
  }

  lemma BelowMore(ts: seq<Tree>, rank: map<string, nat>, bound: nat, more: nat)
    requires BelowBefore(ts, rank, bound) && bound <= more
    ensures BelowBefore(ts, rank, more)
  {
    hide Before;
    forall i | 0 <= i < |ts| ensures Before(ts[i].children, rank, more) {
      BeforeMore(ts[i].children, rank, bound, more);
    }
  }

  lemma NextIsSorted(ts: seq<Tree>, j: nat, rank: map<string, nat>)
    requires j < |ts| && Sorted(ts, j, rank)
    ensures Sorted(ts, j + 1, rank)
  {
    hide AllRising, BelowBefore;
    if j + 1 < |ts| { BelowMore(ts, rank, rank[Name(ts[j])], rank[Name(ts[j + 1])]); }
  }

  lemma MovedIsSorted(ts: seq<Tree>, j: nat, rank: map<string, nat>)
    requires j < |ts| && Sorted(ts, j, rank) && Attach(ts, ts[j]).Some?
    ensures |Attach(ts, ts[j]).value| == |ts| && Sorted(Without(Attach(ts, ts[j]).value, j), j, rank)
  {
    hide AllRising, Rising, BelowBefore, Before, Attach;
    var child, attached := ts[j], Attach(ts, ts[j]).value;
    RisingNames(ts, rank, j);
    WithoutRises(ts, j, rank);
    AttachAdds(ts, child);
    AttachRises(ts, child, rank);
    SameHeadsRise(ts, attached, rank);
    WithoutRises(attached, j, rank);
    if j + 1 < |ts| {
      var bound := rank[Name(ts[j + 1])];
      BelowMore(ts, rank, rank[Name(child)], bound);
      ChildBefore(ts, j, rank, bound);
      AttachStaysBelow(ts, child, rank, bound);
      WithoutBelow(attached, j, rank, bound);
    }
  }

  lemma RisingNames(ts: seq<Tree>, rank: map<string, nat>, j: nat)
    requires Rising(ts, rank) && j < |ts|
    ensures Name(ts[j]) in rank
    ensures j + 1 < |ts| ==> Name(ts[j + 1]) in rank && rank[Name(ts[j])] < rank[Name(ts[j + 1])]
  {
  }

  lemma ChildBefore(ts: seq<Tree>, j: nat, rank: map<string, nat>, bound: nat)
    requires j < |ts| && BelowBefore(ts, rank, bound) && Name(ts[j]) in rank && rank[Name(ts[j])] < bound
    ensures Before([ts[j]], rank, bound)
  {
    assert [ts[j]][1..] == [];
  }

  lemma WithoutBelow(ts: seq<Tree>, j: nat, rank: map<string, nat>, bound: nat)
    requires j < |ts| && BelowBefore(ts, rank, bound)
    ensures BelowBefore(Without(ts, j), rank, bound)
  {
    hide Before;
    var r := Without(ts, j);
    forall i | 0 <= i < |r| ensures r[i] == ts[if i < j then i else i + 1] {
    }
  }

  lemma {:induction false} PositionsAre(jobs: seq<JobNode>)
    requires DistinctNames(jobs)
    ensures forall i | 0 <= i < |jobs| :: jobs[i].job.name in Positions(jobs) && Positions(jobs)[jobs[i].job.name] == i
  {
    if jobs != [] {
      var front := jobs[..|jobs| - 1];
      assert forall i | 0 <= i < |front| :: front[i] == jobs[i];
      PositionsAre(front);
    }
  }

  lemma {:induction false} LeavesRise(jobs: seq<JobNode>, rank: map<string, nat>)
    ensures AllRising(Leaves(jobs), rank)
  {
    if jobs != [] {
      LeavesCons(jobs);
      LeavesRise(jobs[1..], rank);
      RisingCons(Tree(jobs[0], []), Leaves(jobs[1..]), rank);
    }
  }

  /** The roots of the tree, and the children of every job, come in the order of the uploaded list. */
  lemma BuiltInOrder(libs: Libs, jobs: seq<JobNode>)
    requires DistinctNames(jobs) && BuildTree(libs, Leaves(jobs), 0).Ok?
    ensures var ts := BuildTree(libs, Leaves(jobs), 0).value;
            Rising(ts, Positions(jobs)) && AllRising(ts, Positions(jobs))
  {
    hide BuildTree, AllRising, Positions;
    var ts, rank := Leaves(jobs), Positions(jobs);
    PositionsAre(jobs);
    LeavesRise(jobs, rank);
    BuildRises(libs, ts, 0, rank);
  }
}
