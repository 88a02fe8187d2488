/** The tree builder of the restore endpoint: it takes a flat list of jobs apart until only roots are left, and hangs
    every other job under its parent. */
module JobTree {
  import opened Wrappers
  import opened Types
  import opened ParentChains

  /** A job of the uploaded list, with the children found so far. */
  class JobNode {
    const job: Job
    var childJobs: seq<JobNode>

    constructor (job: Job)
      ensures this.job == job && childJobs == []
    {
      this.job := job;
      childJobs := [];
    }
  }

  // A node together with the subtrees under it.
  datatype Tree = Tree(node: JobNode, children: seq<Tree>)

  function Name(t: Tree): string {
    t.node.job.name
  }

  function Parent(t: Tree): string {
    t.node.job.parentJob
  }

  // ---- The builder on values ----

  /** Hangs `child` under the first job of the forest, in preorder, that it names as its parent. */
  function Insert(ts: seq<Tree>, child: Tree): Option<seq<Tree>> {
    if ts == [] then None
    else if Parent(child) == Name(ts[0]) then Some([Tree(ts[0].node, ts[0].children + [child])] + ts[1..])
    else
      match Insert(ts[0].children, child)
      case Some(children) => Some([Tree(ts[0].node, children)] + ts[1..])
      case None =>
        match Insert(ts[1..], child)
        case Some(rest) => Some([ts[0]] + rest)
        case None => None
  }

  /** The same over the list, where an entry with the name of `child` is passed over with all that hangs under it. */
  function Attach(ts: seq<Tree>, child: Tree): Option<seq<Tree>> {
    if ts == [] then None
    else if Name(ts[0]) != Name(child) && Insert([ts[0]], child).Some? then Some(Insert([ts[0]], child).value + ts[1..])
    else
      match Attach(ts[1..], child)
      case Some(rest) => Some([ts[0]] + rest)
      case None => None
  }

  function Without(ts: seq<Tree>, j: nat): seq<Tree>
    requires j < |ts|
  {
    ts[..j] + ts[j + 1..]
  }

  /** Works on entry `j` until the list ends: a root stays and the next entry is looked at, another job moves away. */
  function BuildTree(libs: Libs, ts: seq<Tree>, j: nat): (r: Result<seq<Tree>, Error>)
    requires j <= |ts|
    decreases |ts| - j
  {
    if j == |ts| then Ok(ts)
    else
      var child := ts[j];
      var invalid := Validate(libs, child.node.job);
      if invalid.Some? then Err(invalid.value)
      else if Parent(child) == "" then BuildTree(libs, ts, j + 1)
      else
        var attached := Attach(ts, child);
        if attached.None? then Err(NoParent)
        else if |attached.value| == |ts| then BuildTree(libs, Without(attached.value, j), j)
        else Err(NoParent)
  }

  // ---- What is in a forest ----

  ghost function Nodes(ts: seq<Tree>): multiset<JobNode> {
    if ts == [] then multiset{} else multiset{ts[0].node} + Nodes(ts[0].children) + Nodes(ts[1..])
  }

  /** Every child sits under the job that it names as its parent. */
  ghost predicate WellPlaced(ts: seq<Tree>) {
    ts != [] ==> AllUnder(ts[0].children, Name(ts[0])) && WellPlaced(ts[0].children) && WellPlaced(ts[1..])
  }

  predicate AllUnder(ts: seq<Tree>, parent: string) {
    forall i | 0 <= i < |ts| :: Parent(ts[i]) == parent
  }

  ghost predicate AllNodesValid(libs: Libs, ts: seq<Tree>) {
    forall n | n in Nodes(ts) :: Validate(libs, n.job).None?
  }

  lemma {:induction false} NodesConcat(a: seq<Tree>, b: seq<Tree>)
    ensures Nodes(a + b) == Nodes(a) + Nodes(b)
    ensures WellPlaced(a + b) <==> WellPlaced(a) && WellPlaced(b)
  {
    if a == [] {
      assert a + b == b;
    } else {
      assert (a + b)[1..] == a[1..] + b;
      NodesConcat(a[1..], b);
    }
  }

  lemma NodesCons(t: Tree, rest: seq<Tree>)
    ensures Nodes([t] + rest) == multiset{t.node} + Nodes(t.children) + Nodes(rest)
    ensures WellPlaced([t] + rest) <==> AllUnder(t.children, Name(t)) && WellPlaced(t.children) && WellPlaced(rest)
  {
    assert ([t] + rest)[1..] == rest;
  }

  lemma NodesOne(t: Tree)
    ensures Nodes([t]) == multiset{t.node} + Nodes(t.children)
    ensures WellPlaced([t]) <==> AllUnder(t.children, Name(t)) && WellPlaced(t.children)
  {
    assert [t][1..] == [];
  }

  // The entries of a list keep their nodes.
  ghost predicate SameHeads(ts: seq<Tree>, r: seq<Tree>) {
    |r| == |ts| && forall i | 0 <= i < |ts| :: r[i].node == ts[i].node
  }

  lemma SameHeadsSameParents(ts: seq<Tree>, r: seq<Tree>, parent: string)
    requires SameHeads(ts, r) && AllUnder(ts, parent)
    ensures AllUnder(r, parent)
  {
    assert forall i | 0 <= i < |ts| :: Parent(ts[i]) == parent;
  }

  // `r` holds what `ts` and `child` hold, and places them well if they are well placed.
  ghost predicate Adds(ts: seq<Tree>, child: Tree, r: seq<Tree>) {
    && SameHeads(ts, r)
    && Nodes(r) == Nodes(ts) + Nodes([child])
    && (WellPlaced(ts) && WellPlaced([child]) ==> WellPlaced(r))
  }

  lemma AddsHere(head: Tree, tail: seq<Tree>, child: Tree)
    requires Parent(child) == Name(head)
    ensures Adds([head] + tail, child, [Tree(head.node, head.children + [child])] + tail)
  {
    hide Nodes, WellPlaced;
    var t := Tree(head.node, head.children + [child]);
    NodesCons(head, tail);
    NodesCons(t, tail);
    NodesConcat(head.children, [child]);
  }

  lemma AddsBelow(head: Tree, tail: seq<Tree>, child: Tree, children: seq<Tree>)
    requires Adds(head.children, child, children)
    ensures Adds([head] + tail, child, [Tree(head.node, children)] + tail)
  {
    hide Nodes, WellPlaced, AllUnder;
    var t := Tree(head.node, children);
    NodesCons(head, tail);
    NodesCons(t, tail);
    if AllUnder(head.children, Name(head)) { SameHeadsSameParents(head.children, children, Name(head)); }
  }

  lemma AddsAfter(head: Tree, tail: seq<Tree>, child: Tree, rest: seq<Tree>)
    requires Adds(tail, child, rest)
    ensures Adds([head] + tail, child, [head] + rest)
  {
    hide Nodes, WellPlaced, AllUnder;
    NodesCons(head, tail);
    NodesCons(head, rest);
  }

  /** An insertion adds the child's nodes, keeps the heads of the list, and places the child under its parent. */
  lemma {:induction false} InsertAdds(ts: seq<Tree>, child: Tree)
    requires Insert(ts, child).Some?
    ensures Adds(ts, child, Insert(ts, child).value)
  {
    hide Nodes, WellPlaced, Adds;
    var head, tail := ts[0], ts[1..];
    assert ts == [head] + tail;
    if Parent(child) == Name(head) {
      AddsHere(head, tail, child);
    } else if Insert(head.children, child).Some? {
      InsertAdds(head.children, child);
      AddsBelow(head, tail, child, Insert(head.children, child).value);
    } else {
      InsertAdds(tail, child);
      AddsAfter(head, tail, child, Insert(tail, child).value);
    }
  }

  lemma {:induction false} AttachAdds(ts: seq<Tree>, child: Tree)
    requires Attach(ts, child).Some?
    ensures Adds(ts, child, Attach(ts, child).value)
    ensures forall i | 0 <= i < |ts| && Name(ts[i]) == Name(child) :: Attach(ts, child).value[i] == ts[i]
  {
    hide Nodes, WellPlaced, Insert;
    var first, tail, r := ts[0], ts[1..], Attach(ts, child).value;
    assert ts == [first] + tail;
    if Name(first) != Name(child) && Insert([first], child).Some? {
      InsertAdds([first], child);
      AddsInFront([first], tail, child, Insert([first], child).value);
    } else {
      AttachAdds(tail, child);
      AddsAfter(first, tail, child, Attach(tail, child).value);
    }
  }

  lemma AddsInFront(front: seq<Tree>, tail: seq<Tree>, child: Tree, r: seq<Tree>)
    requires Adds(front, child, r)
    ensures Adds(front + tail, child, r + tail)
  {
    hide Nodes, WellPlaced;
    NodesConcat(front, tail);
    NodesConcat(r, tail);
  }

  lemma SplitAt<T>(s: seq<T>, i: nat)
    requires i < |s|
    ensures s == s[..i] + ([s[i]] + s[i + 1..])
  {
  }

  lemma EntryIsPart(ts: seq<Tree>, j: nat)
    requires j < |ts|
    ensures Nodes(ts) == Nodes(Without(ts, j)) + Nodes([ts[j]])
    ensures WellPlaced(ts) <==> WellPlaced(Without(ts, j)) && WellPlaced([ts[j]])
    ensures ts[j].node in Nodes(ts) && ts[j].node in Nodes([ts[j]])
  {
    hide Nodes, WellPlaced;
    NodesOne(ts[j]);
    SplitAt(ts, j);
    PartOfThree(ts[..j], ts[j], ts[j + 1..]);
  }

  lemma PartOfThree(front: seq<Tree>, t: Tree, back: seq<Tree>)
    ensures Nodes(front + ([t] + back)) == Nodes(front + back) + Nodes([t])
    ensures WellPlaced(front + ([t] + back)) <==> WellPlaced(front + back) && WellPlaced([t])
  {
    hide Nodes, WellPlaced;
    NodesConcat(front, [t] + back);
    NodesConcat([t], back);
    NodesConcat(front, back);
  }

  /** One round that moves a job: no node is lost or doubled, and the child is placed under its parent. */
  lemma MoveKeepsForest(ts: seq<Tree>, j: nat)
    requires j < |ts| && Attach(ts, ts[j]).Some? && WellPlaced(ts)
    ensures var attached := Attach(ts, ts[j]).value;
            && |attached| == |ts| && Nodes(Without(attached, j)) == Nodes(ts) && WellPlaced(Without(attached, j))
            && (forall i | 0 <= i < |ts| - 1 :: Without(attached, j)[i].node == ts[if i < j then i else i + 1].node)
  {
    hide Nodes, WellPlaced, Attach;
    var attached := Attach(ts, ts[j]).value;
    AttachAdds(ts, ts[j]);
    EntryIsPart(ts, j);
    EntryIsPart(attached, j);
    assert attached[j] == ts[j];
    MovedNodes(Nodes(ts), Nodes([ts[j]]), Nodes(attached), Nodes(Without(attached, j)));
  }

  lemma MovedNodes(
      all: multiset<JobNode>, part: multiset<JobNode>, attached: multiset<JobNode>, rest: multiset<JobNode>)
    requires attached == all + part && attached == rest + part
    ensures rest == all
  {
    forall n: JobNode ensures rest[n] == all[n] {
      assert attached[n] == all[n] + part[n] == rest[n] + part[n];
    }
  }

  /** Success means that the result holds each job of the list once, that every root has no parent, that every other job
      sits under the job it names as its parent, and that all jobs are valid. This needs no distinct names. */
  lemma {:induction false} BuiltTreeIsSound(libs: Libs, ts: seq<Tree>, j: nat)
    requires j <= |ts| && WellPlaced(ts) && BuildTree(libs, ts, j).Ok?
    requires forall i | 0 <= i < j :: Parent(ts[i]) == ""
    ensures var r := BuildTree(libs, ts, j).value;
            && Nodes(r) == Nodes(ts) && WellPlaced(r) && |r| <= |ts|
            && (forall i | 0 <= i < |r| :: Parent(r[i]) == "")
    decreases |ts| - j
  {
    hide Validate, Attach, WellPlaced, Nodes;
    if j < |ts| {
      if Parent(ts[j]) == "" {
        BuiltTreeIsSound(libs, ts, j + 1);
      } else {
        MoveKeepsForest(ts, j);
        BuiltTreeIsSound(libs, Without(Attach(ts, ts[j]).value, j), j);
      }
    }
  }

  // ---- When the builder succeeds ----

  /** The nodes of the forest have different names, and `parents` maps each name to the parent of its job. */
  ghost predicate Named(ns: multiset<JobNode>, parents: Parents) {
    && (forall n | n in ns :: ns[n] == 1 && n.job.name in parents && parents[n.job.name] == n.job.parentJob)
    && (forall n, m | n in ns && m in ns && n.job.name == m.job.name :: n == m)
    && (forall name | name in parents :: exists n :: n in ns && n.job.name == name)
  }

  ghost predicate HasName(ts: seq<Tree>, name: string) {
    exists n :: n in Nodes(ts) && n.job.name == name
  }

  /** An insertion that fails has looked at every node. */
  lemma {:induction false} InsertFails(ts: seq<Tree>, child: Tree)
    requires Insert(ts, child).None?
    ensures !HasName(ts, Parent(child))
  {
    if ts != [] {
      InsertFails(ts[0].children, child);
      InsertFails(ts[1..], child);
      forall n | n in Nodes(ts) ensures n.job.name != Parent(child) {
        assert n == ts[0].node || n in Nodes(ts[0].children) || n in Nodes(ts[1..]);
      }
    }
  }

  lemma {:induction false} AttachFails(ts: seq<Tree>, child: Tree, i: nat)
    requires Attach(ts, child).None? && i < |ts| && Name(ts[i]) != Name(child)
    ensures !HasName([ts[i]], Parent(child))
  {
    if i == 0 {
      InsertFails([ts[0]], child);
    } else {
      AttachFails(ts[1..], child, i - 1);
    }
  }

  lemma {:induction false} NodeInEntry(ts: seq<Tree>, n: JobNode) returns (i: nat)
    requires n in Nodes(ts)
    ensures i < |ts| && n in Nodes([ts[i]])
  {
    NotEmpty(ts, n);
    hide Nodes;
    if n in Nodes([ts[0]]) {
      i := 0;
    } else {
      InFirstOrRest(ts, n);
      var j := NodeInEntry(ts[1..], n);
      i := j + 1;
    }
  }

  lemma InFirstOrRest(ts: seq<Tree>, n: JobNode)
    requires n in Nodes(ts)
    ensures ts != [] && (n in Nodes([ts[0]]) || n in Nodes(ts[1..]))
  {
    NotEmpty(ts, n);
    NodesOne(ts[0]);
  }

  lemma NotEmpty(ts: seq<Tree>, n: JobNode)
    requires n in Nodes(ts)
    ensures ts != []
  {
  }

  /** Below a job the rank does not fall. */
  lemma {:induction false} RankBelow(ts: seq<Tree>, parents: Parents, rank: map<string, nat>, least: nat, n: JobNode)
    requires WellPlaced(ts) && Ranks(parents, rank) && n in Nodes(ts)
    requires forall m | m in Nodes(ts) ::
             m.job.name in parents && parents[m.job.name] == m.job.parentJob && m.job.name != ""
    requires forall i | 0 <= i < |ts| :: Name(ts[i]) in rank && rank[Name(ts[i])] >= least
    ensures n.job.name in rank && rank[n.job.name] >= least
  {
    assert ts[0].node in Nodes(ts);
    if n in Nodes(ts[0].children) {
      forall i | 0 <= i < |ts[0].children|
        ensures Name(ts[0].children[i]) in rank && rank[Name(ts[0].children[i])] >= least
      {
        var c := ts[0].children[i];
        EntryIsPart(ts[0].children, i);
        assert c.node in Nodes(ts);
        assert RankFalls(parents, rank, Name(c));
      }
      RankBelow(ts[0].children, parents, rank, least, n);
    } else if n in Nodes(ts[1..]) {
      forall i | 0 <= i < |ts[1..]| ensures Name(ts[1..][i]) in rank && rank[Name(ts[1..][i])] >= least {
        assert ts[1..][i] == ts[i + 1];
      }
      RankBelow(ts[1..], parents, rank, least, n);
    }
  }

  /** The subtree of a job does not hold the job's parent. */
  lemma ParentNotBelow(ts: seq<Tree>, i: nat, parents: Parents, rank: map<string, nat>, p: JobNode)
    requires i < |ts| && WellPlaced(ts) && Named(Nodes(ts), parents) && Ranks(parents, rank)
    requires Parent(ts[i]) != "" && forall n | n in Nodes(ts) :: n.job.name != ""
    requires p.job.name == Parent(ts[i])
    ensures p !in Nodes([ts[i]])
  {
    hide Nodes, WellPlaced, Ranks, RankFalls;
    EntryIsPart(ts, i);
    ChildAboveParent(Nodes(ts), parents, rank, ts[i].node);
    if p in Nodes([ts[i]]) {
      RankBelow([ts[i]], parents, rank, rank[Name(ts[i])], p);
    }
  }

  lemma ChildAboveParent(ns: multiset<JobNode>, parents: Parents, rank: map<string, nat>, n: JobNode)
    requires Named(ns, parents) && Ranks(parents, rank) && n in ns && n.job.parentJob != ""
    ensures n.job.name in rank && n.job.parentJob in rank && rank[n.job.parentJob] < rank[n.job.name]
    ensures exists p :: p in ns && p.job.name == n.job.parentJob
  {
    assert RankFalls(parents, rank, n.job.name);
  }

  /** In a grounded forest the parent of a job is found outside the job's own subtree. */
  lemma GroundedAttaches(ts: seq<Tree>, j: nat, parents: Parents, rank: map<string, nat>)
    requires j < |ts| && WellPlaced(ts) && Named(Nodes(ts), parents) && Ranks(parents, rank)
    requires Parent(ts[j]) != "" && forall n | n in Nodes(ts) :: n.job.name != ""
    ensures Attach(ts, ts[j]).Some?
  {
    hide Nodes, WellPlaced, Ranks, RankFalls, Attach;
    var child := ts[j];
    EntryIsPart(ts, j);
    ChildAboveParent(Nodes(ts), parents, rank, child.node);
    var p :| p in Nodes(ts) && p.job.name == Parent(child);
    var i := NodeInEntry(ts, p);
    EntryIsPart(ts, i);
    if Name(ts[i]) == Name(child) {
      assert ts[i].node == child.node;
      ParentNotBelow(ts, i, parents, rank, p);
    }
    if Attach(ts, child).None? {
      AttachFails(ts, child, i);
    }
  }

  lemma {:induction false} GroundedSucceeds(libs: Libs, ts: seq<Tree>, j: nat, parents: Parents, rank: map<string, nat>)
    requires j <= |ts| && WellPlaced(ts) && Named(Nodes(ts), parents) && Ranks(parents, rank)
    requires AllNodesValid(libs, ts) && forall n | n in Nodes(ts) :: n.job.name != ""
    ensures BuildTree(libs, ts, j).Ok?
    decreases |ts| - j
  {
    hide Validate, Named, Ranks, Nodes, WellPlaced, Attach;
    if j < |ts| {
      EntryIsPart(ts, j);
      if Parent(ts[j]) == "" {
        GroundedSucceeds(libs, ts, j + 1, parents, rank);
      } else {
        GroundedAttaches(ts, j, parents, rank);
        MoveKeepsForest(ts, j);
        GroundedSucceeds(libs, Without(Attach(ts, ts[j]).value, j), j, parents, rank);
      }
    }
  }

  // The map of parents knows the nodes.
  ghost predicate Known(ts: seq<Tree>, parents: Parents) {
    forall m | m in Nodes(ts) :: m.job.name in parents && parents[m.job.name] == m.job.parentJob && m.job.name != ""
  }

  ghost predicate HeadsRooted(ts: seq<Tree>, parents: Parents) {
    forall i | 0 <= i < |ts| :: Rooted(parents, Name(ts[i]))
  }

  /** In a finished forest every job's chain reaches a root. */
  lemma {:induction false} PlacedIsRooted(ts: seq<Tree>, parents: Parents, n: JobNode)
    requires WellPlaced(ts) && n in Nodes(ts) && Known(ts, parents) && HeadsRooted(ts, parents)
    ensures Rooted(parents, n.job.name)
  {
    NotEmpty(ts, n);
    hide Nodes, WellPlaced, Rooted, Known, HeadsRooted, AllUnder;
    var t, rest := ts[0], ts[1..];
    assert ts == [t] + rest;
    NodesCons(t, rest);
    KnownParts(ts, parents);
    HeadsParts(ts, parents);
    if n in Nodes(t.children) {
      ChildrenRooted(t, parents);
      PlacedIsRooted(t.children, parents, n);
    } else if n in Nodes(rest) {
      PlacedIsRooted(rest, parents, n);
    }
  }

  lemma KnownParts(ts: seq<Tree>, parents: Parents)
    requires ts != [] && Known(ts, parents)
    ensures Known(ts[0].children, parents) && Known(ts[1..], parents) && Name(ts[0]) != ""
  {
    assert ts[0].node in Nodes(ts);
  }

  lemma HeadsParts(ts: seq<Tree>, parents: Parents)
    requires ts != [] && HeadsRooted(ts, parents)
    ensures Rooted(parents, Name(ts[0])) && HeadsRooted(ts[1..], parents)
  {
    hide Rooted;
    assert forall i | 0 <= i < |ts[1..]| :: ts[1..][i] == ts[i + 1];
  }

  lemma ChildrenRooted(t: Tree, parents: Parents)
    requires AllUnder(t.children, Name(t)) && Name(t) != "" && Rooted(parents, Name(t)) && Known(t.children, parents)
    ensures HeadsRooted(t.children, parents)
  {
    hide Nodes;
    var k: nat :| ReachesRoot(parents, Name(t), k);
    forall i | 0 <= i < |t.children| ensures Rooted(parents, Name(t.children[i])) {
      EntryIsPart(t.children, i);
      assert t.children[i].node.job.name in parents;
      assert ReachesRoot(parents, Name(t.children[i]), k + 1);
    }
  }

  // Every node that the builder still has to look at, or that it moved, is validated.
  lemma {:induction false} SuccessValidates(libs: Libs, ts: seq<Tree>, j: nat, i: nat)
    requires j <= i < |ts| && BuildTree(libs, ts, j).Ok?
    ensures Validate(libs, ts[i].node.job).None?
    decreases |ts| - j
  {
    hide Validate, Attach;
    if j < i {
      if Parent(ts[j]) == "" {
        SuccessValidates(libs, ts, j + 1, i);
      } else {
        AttachAdds(ts, ts[j]);
        var rest := Without(Attach(ts, ts[j]).value, j);
        assert rest[i - 1].node == ts[i].node;
        SuccessValidates(libs, rest, j, i - 1);
      }
    }
  }

  /** The error is that of a job that does not validate, or says that a parent is missing. */
  lemma {:induction false} BuildTreeError(libs: Libs, ts: seq<Tree>, j: nat)
    requires j <= |ts| && BuildTree(libs, ts, j).Err?
    ensures BuildTree(libs, ts, j).error == NoParent
            || exists n :: n in Nodes(ts) && Validate(libs, n.job) == Some(BuildTree(libs, ts, j).error)
    decreases |ts| - j
  {
    hide Validate, Attach, Nodes, WellPlaced;
    EntryIsPart(ts, j);
    if Validate(libs, ts[j].node.job).Some? {
    } else if Parent(ts[j]) == "" {
      BuildTreeError(libs, ts, j + 1);
    } else if Attach(ts, ts[j]).Some? {
      MoveKeepsObjects(ts, j);
      BuildTreeError(libs, Without(Attach(ts, ts[j]).value, j), j);
    }
  }

  /** A list is refused with the validation error of one of its jobs, or for a missing parent. */
  lemma ListError(libs: Libs, jobs: seq<JobNode>)
    requires BuildTree(libs, Leaves(jobs), 0).Err?
    ensures var error := BuildTree(libs, Leaves(jobs), 0).error;
            error == NoParent || exists i :: 0 <= i < |jobs| && Validate(libs, jobs[i].job) == Some(error)
  {
    hide Validate, BuildTree, Nodes, Leaves;
    BuildTreeError(libs, Leaves(jobs), 0);
    NodesOfLeaves(jobs);
    if n :| n in Nodes(Leaves(jobs)) && Validate(libs, n.job) == Some(BuildTree(libs, Leaves(jobs), 0).error) {
      assert n in multiset(jobs);
      var i :| 0 <= i < |jobs| && jobs[i] == n;
    }
  }

  function Leaves(jobs: seq<JobNode>): seq<Tree> {
    seq(|jobs|, i requires 0 <= i < |jobs| => Tree(jobs[i], []))
  }

  lemma {:induction false} NodesOfLeaves(jobs: seq<JobNode>)
    ensures Nodes(Leaves(jobs)) == multiset(jobs) && WellPlaced(Leaves(jobs))
  {
    if jobs != [] {
      hide Nodes, WellPlaced, Leaves;
      LeavesCons(jobs);
      var rest := jobs[1..];
      NodesOfLeaves(rest);
      LeafCons(jobs[0], Leaves(rest));
      assert multiset(jobs) == multiset{jobs[0]} + multiset(rest) by { assert jobs == [jobs[0]] + rest; }
    }
  }

  lemma LeavesCons(jobs: seq<JobNode>)
    requires jobs != []
    ensures Leaves(jobs) == [Tree(jobs[0], [])] + Leaves(jobs[1..])
  {
  }

  lemma LeafCons(n: JobNode, rest: seq<Tree>)
    ensures Nodes([Tree(n, [])] + rest) == multiset{n} + Nodes(rest)
    ensures WellPlaced([Tree(n, [])] + rest) <==> WellPlaced(rest)
  {
    assert ([Tree(n, [])] + rest)[1..] == rest;
  }

  ghost predicate DistinctNames(jobs: seq<JobNode>) {
    forall i, j | 0 <= i < j < |jobs| :: jobs[i].job.name != jobs[j].job.name
  }

  ghost predicate ListValid(libs: Libs, jobs: seq<JobNode>) {
    forall i | 0 <= i < |jobs| :: Validate(libs, jobs[i].job).None?
  }

  function ParentsOfList(jobs: seq<JobNode>): Parents {
    if jobs == [] then map[] else ParentsOfList(jobs[1..])[jobs[0].job.name := jobs[0].job.parentJob]
  }

  lemma {:induction false} ListIsNamed(jobs: seq<JobNode>)
    requires DistinctNames(jobs)
    ensures Named(multiset(jobs), ParentsOfList(jobs))
  {
    hide Named;
    if jobs == [] {
      assert Named(multiset{}, map[]) by { NothingIsNamed(); }
    } else {
      var first, rest := jobs[0], jobs[1..];
      ListIsNamed(rest);
      assert jobs == [first] + rest;
      forall n: JobNode | n in multiset(rest) ensures n.job.name != first.job.name {
        var i :| 0 <= i < |rest| && rest[i] == n;
        assert jobs[i + 1] == n;
      }
      NamedCons(multiset(rest), ParentsOfList(rest), first);
      assert multiset(jobs) == multiset(rest) + multiset{first};
    }
  }

  lemma NothingIsNamed()
    ensures Named(multiset{}, map[])
  {
  }

  lemma NamedCons(ns: multiset<JobNode>, parents: Parents, first: JobNode)
    requires Named(ns, parents) && forall n | n in ns :: n.job.name != first.job.name
    ensures Named(ns + multiset{first}, parents[first.job.name := first.job.parentJob])
  {
    var all, more := ns + multiset{first}, parents[first.job.name := first.job.parentJob];
    forall n: JobNode
      ensures n in all <==> n in ns || n == first
      ensures n in all ==> all[n] == 1
    {
      assert n in ns ==> n != first && ns[n] == 1;
      assert all[n] == ns[n] + if n == first then 1 else 0;
    }
    NamedConsMembers(ns, all, parents, first);
  }

  lemma NamedConsMembers(ns: multiset<JobNode>, all: multiset<JobNode>, parents: Parents, first: JobNode)
    requires Named(ns, parents) && forall n | n in ns :: n.job.name != first.job.name
    requires forall n: JobNode :: n in all <==> n in ns || n == first
    requires forall n | n in all :: all[n] == 1
    ensures Named(all, parents[first.job.name := first.job.parentJob])
  {
    var more := parents[first.job.name := first.job.parentJob];
    forall name | name in more ensures exists n :: n in all && n.job.name == name {
      if name == first.job.name {
        assert first in all;
      } else {
        var n :| n in ns && n.job.name == name;
        assert n in all;
      }
    }
  }

  /** For a list of jobs with distinct names, a tree is built exactly when every job is valid and every chain of parents
      stays inside the list and ends at a root. */
  lemma BuildTreeIff(libs: Libs, jobs: seq<JobNode>)
    requires DistinctNames(jobs)
    ensures BuildTree(libs, Leaves(jobs), 0).Ok? <==> ListValid(libs, jobs) && Grounded(ParentsOfList(jobs))
  {
    var ts, parents := Leaves(jobs), ParentsOfList(jobs);
    NodesOfLeaves(jobs);
    ListIsNamed(jobs);
    hide Validate, Leaves, ParentsOfList, Nodes, WellPlaced, BuildTree, Grounded;
    if BuildTree(libs, ts, 0).Ok? {
      SuccessIsGrounded(libs, jobs, parents);
    } else if ListValid(libs, jobs) && Grounded(parents) {
      forall n | n in Nodes(ts) ensures n.job.name != "" && Validate(libs, n.job).None? {
        assert n in multiset(jobs) && n in jobs;
        ValidIsNamed(libs, n.job);
      }
      var rank := GroundedHasRank(parents);
      GroundedSucceeds(libs, ts, 0, parents, rank);
    }
  }

  lemma SuccessIsGrounded(libs: Libs, jobs: seq<JobNode>, parents: Parents)
    requires BuildTree(libs, Leaves(jobs), 0).Ok? && Named(multiset(jobs), parents)
    ensures ListValid(libs, jobs) && Grounded(parents)
  {
    var ts := Leaves(jobs);
    NodesOfLeaves(jobs);
    hide Validate, BuildTree, Nodes, WellPlaced;
    forall i | 0 <= i < |jobs| ensures Validate(libs, jobs[i].job).None? && jobs[i].job.name != "" {
      SuccessValidates(libs, ts, 0, i);
      ValidIsNamed(libs, jobs[i].job);
    }
    BuiltTreeIsSound(libs, ts, 0);
    var r := BuildTree(libs, ts, 0).value;
    forall m | m in Nodes(r)
      ensures m.job.name in parents && parents[m.job.name] == m.job.parentJob && m.job.name != ""
    {
      assert m in multiset(jobs) && m in jobs;
    }
    assert Known(r, parents);
    forall i | 0 <= i < |r| ensures Rooted(parents, Name(r[i])) {
      EntryIsPart(r, i);
      assert ReachesRoot(parents, Name(r[i]), 0);
    }
    forall name | name in parents ensures Rooted(parents, name) {
      var n :| n in multiset(jobs) && n.job.name == name;
      PlacedIsRooted(r, parents, n);
    }
  }

  lemma ValidIsNamed(libs: Libs, job: Job)
    requires Validate(libs, job).None?
    ensures job.name != "" && job.parentJob != job.name
  {
  }

  // ---- The builder on objects ----

  /** The objects of the list are the nodes of the forest, and point to each other as the forest says. */
  ghost predicate Mirrors(list: seq<JobNode>, ts: seq<Tree>)
    reads Nodes(ts)
    decreases ts
  {
    && |list| == |ts|
    && (ts != [] ==>
          && list[0] == ts[0].node
          && Mirrors(ts[0].node.childJobs, ts[0].children)
          && Mirrors(list[1..], ts[1..]))
  }

  ghost function Objects(ts: seq<Tree>): set<JobNode> {
    set n | n in Nodes(ts)
  }

  // No object occurs twice.
  ghost predicate Unique(ns: multiset<JobNode>) {
    forall n | n in ns :: ns[n] == 1
  }

  lemma {:induction false} MirrorsConcat(a: seq<JobNode>, b: seq<JobNode>, s: seq<Tree>, t: seq<Tree>)
    requires |a| == |s|
    ensures Mirrors(a + b, s + t) <==> Mirrors(a, s) && Mirrors(b, t)
  {
    if s == [] {
      assert a + b == b && s + t == t;
    } else {
      assert (a + b)[1..] == a[1..] + b && (s + t)[1..] == s[1..] + t;
      MirrorsConcat(a[1..], b, s[1..], t);
    }
  }

  lemma MirrorsLength(list: seq<JobNode>, ts: seq<Tree>)
    requires Mirrors(list, ts)
    ensures |list| == |ts|
  {
  }

  lemma MirrorsOne(n: JobNode, t: Tree)
    ensures Mirrors([n], [t]) <==> n == t.node && Mirrors(n.childJobs, t.children)
  {
    assert [n][1..] == [] && [t][1..] == [];
  }

  lemma MirrorsEntry(list: seq<JobNode>, ts: seq<Tree>, i: nat)
    requires Mirrors(list, ts) && i < |ts|
    ensures list[i] == ts[i].node && Mirrors([list[i]], [ts[i]]) && Mirrors(list[i].childJobs, ts[i].children)
    ensures Mirrors(list[..i], ts[..i]) && Mirrors(list[i + 1..], ts[i + 1..])
  {
    SplitAt(list, i);
    SplitAt(ts, i);
    MirrorsConcat(list[..i], [list[i]] + list[i + 1..], ts[..i], [ts[i]] + ts[i + 1..]);
    MirrorsConcat([list[i]], list[i + 1..], [ts[i]], ts[i + 1..]);
    MirrorsOne(list[i], ts[i]);
  }

  lemma MirrorsReplaced(list: seq<JobNode>, ts: seq<Tree>, i: nat, t: Tree)
    requires |list| == |ts| && i < |ts| && list[i] == t.node && Mirrors(list[i].childJobs, t.children)
    requires Mirrors(list[..i], ts[..i]) && Mirrors(list[i + 1..], ts[i + 1..])
    ensures Mirrors(list, ts[..i] + ([t] + ts[i + 1..]))
  {
    MirrorsOne(list[i], t);
    MirrorsConcat([list[i]], list[i + 1..], [t], ts[i + 1..]);
    MirrorsConcat(list[..i], [list[i]] + list[i + 1..], ts[..i], [t] + ts[i + 1..]);
    SplitAt(list, i);
  }

  lemma MirrorsKept(list: seq<JobNode>, ts: seq<Tree>, i: nat)
    requires |list| == |ts| && i < |ts| && list[i] == ts[i].node && Mirrors(list[i].childJobs, ts[i].children)
    requires Mirrors(list[..i], ts[..i]) && Mirrors(list[i + 1..], ts[i + 1..])
    ensures Mirrors(list, ts)
  {
    hide Mirrors, Nodes;
    MirrorsReplaced(list, ts, i, ts[i]);
    SplitAt(ts, i);
  }

  // When no object occurs twice, the parts of a forest have nothing in common.
  lemma PartsApart(ts: seq<Tree>, i: nat, all: set<JobNode>)
    requires i < |ts| && Unique(Nodes(ts)) && Objects(ts) <= all
    ensures ts[i].node in Objects(ts) && Objects(ts[i].children) <= Objects(ts) && Unique(Nodes(ts[i].children))
    ensures Apart(ts[..i], ts[i], all) && Apart(ts[i + 1..], ts[i], all) && ts[i].node !in Nodes(ts[i].children)
  {
    hide Nodes, Unique;
    SplitAt(ts, i);
    NodesConcat(ts[..i], [ts[i]] + ts[i + 1..]);
    NodesCons(ts[i], ts[i + 1..]);
    UniqueParts(Nodes(ts), Nodes(ts[..i]), ts[i].node, Nodes(ts[i].children), Nodes(ts[i + 1..]));
    assert forall n | n in Nodes(ts) :: n in Objects(ts);
  }

  lemma OtherForestApart(ts: seq<Tree>, child: Tree, i: nat, all: set<JobNode>)
    requires i < |ts| && forall n | n in Nodes([child]) :: n in all && n !in Objects(ts)
    requires ts[i].node in Objects(ts) && Objects(ts[i].children) <= Objects(ts)
    ensures Apart([child], ts[i], all)
  {
    hide Nodes;
  }

  lemma OtherEntryApart(ts: seq<Tree>, k: nat, i: nat, all: set<JobNode>)
    requires i < |ts| && k < |ts| && k != i && Apart(ts[..i], ts[i], all) && Apart(ts[i + 1..], ts[i], all)
    ensures Apart([ts[k]], ts[i], all)
  {
    hide Nodes;
    var part, at := if k < i then ts[..i] else ts[i + 1..], if k < i then k else k - i - 1;
    assert part[at] == ts[k];
    EntryIsPart(part, at);
  }

  // The forest's objects are known, and are neither the node of `t` nor below it.
  ghost predicate Apart(ts: seq<Tree>, t: Tree, all: set<JobNode>) {
    forall n | n in Nodes(ts) :: n in all && n != t.node && n !in Objects(t.children)
  }

  lemma UniqueParts(
      all: multiset<JobNode>, a: multiset<JobNode>, n: JobNode, b: multiset<JobNode>, c: multiset<JobNode>)
    requires Unique(all) && all == a + (multiset{n} + b + c)
    ensures a <= all && c <= all
    ensures n in all && b <= all && Unique(b) && n !in a && n !in b && n !in c && a !! b && c !! b
  {
    assert all[n] == a[n] + (1 + b[n] + c[n]);
    forall m: JobNode ensures b[m] + a[m] + c[m] <= all[m] && (m in all ==> all[m] == 1) {
      assert all[m] == a[m] + ((if m == n then 1 else 0) + b[m] + c[m]);
    }
  }

  // The first entries do not take the child.
  ghost predicate Refuse(ts: seq<Tree>, child: Tree, i: nat) {
    i <= |ts| && forall k | 0 <= k < i :: Parent(child) != Name(ts[k]) && Insert(ts[k].children, child).None?
  }

  lemma RefuseTail(ts: seq<Tree>, child: Tree, i: nat)
    requires Refuse(ts, child, i) && i > 0
    ensures Refuse(ts[1..], child, i - 1) && Parent(child) != Name(ts[0]) && Insert(ts[0].children, child).None?
  {
    hide Insert;
    assert forall k | 0 <= k < i - 1 :: ts[1..][k] == ts[k + 1];
  }

  lemma {:induction false} InsertSkips(ts: seq<Tree>, child: Tree, i: nat)
    requires Refuse(ts, child, i)
    ensures Insert(ts, child).Some? <==> Insert(ts[i..], child).Some?
    ensures Insert(ts[i..], child).Some? ==> Insert(ts, child).value == ts[..i] + Insert(ts[i..], child).value
  {
    if i > 0 {
      hide Insert, Refuse;
      RefuseTail(ts, child, i);
      InsertSkips(ts[1..], child, i - 1);
      assert ts[1..][i - 1..] == ts[i..] && [ts[0]] + ts[1..][..i - 1] == ts[..i];
    } else {
      assert ts[0..] == ts;
    }
  }

  lemma InsertNowhere(ts: seq<Tree>, child: Tree)
    requires Refuse(ts, child, |ts|)
    ensures Insert(ts, child).None?
  {
    InsertSkips(ts, child, |ts|);
  }

  // Where the child goes when the entries before `i` do not take it.
  lemma InsertAt(ts: seq<Tree>, child: Tree, i: nat)
    requires i < |ts| && Refuse(ts, child, i)
    ensures Insert([], child).None?
    ensures Parent(child) == Name(ts[i]) ==>
              Insert(ts, child) == Some(ts[..i] + ([Tree(ts[i].node, ts[i].children + [child])] + ts[i + 1..]))
    ensures Parent(child) != Name(ts[i]) && Insert(ts[i].children, child).Some? ==>
              Insert(ts, child) ==
                  Some(ts[..i] + ([Tree(ts[i].node, Insert(ts[i].children, child).value)] + ts[i + 1..]))
  {
    InsertSkips(ts, child, i);
    assert ts[i..][0] == ts[i] && ts[i..][1..] == ts[i + 1..];
  }

  /** Hangs a job under its parent. */
  method HangUnder(parentJob: JobNode, job: JobNode, ghost children: seq<Tree>, ghost child: Tree)
    requires Mirrors(parentJob.childJobs, children) && Mirrors([job], [child])
    requires parentJob !in Nodes(children) && parentJob !in Nodes([child])
    modifies parentJob
    ensures Mirrors(parentJob.childJobs, children + [child])
  {
    hide Nodes, Mirrors;
    MirrorsLength(parentJob.childJobs, children);
    MirrorsConcat(parentJob.childJobs, [job], children, [child]);
    NodesConcat(children, [child]);
    parentJob.childJobs := parentJob.childJobs + [job];
  }

  /** Looks for the parent of `job` in a list of jobs and below, and hangs the job there. */
  method FindParentJobInChildJobs(
      jobs: seq<JobNode>, job: JobNode, ghost ts: seq<Tree>, ghost child: Tree, ghost all: set<JobNode>)
    returns (flag: bool)
    requires Mirrors(jobs, ts) && Mirrors([job], [child]) && Unique(Nodes(ts)) && Objects(ts) <= all
    requires forall n | n in Nodes([child]) :: n in all && n !in Objects(ts)
    modifies Objects(ts)
    ensures flag == Insert(ts, child).Some?
    ensures Mirrors(jobs, if flag then Insert(ts, child).value else ts)
    decreases ts
  {
    hide Nodes, Unique, Mirrors, Insert;
    MirrorsOne(job, child);
    MirrorsLength(jobs, ts);
    for i := 0 to |jobs|
      invariant Refuse(ts, child, i)
      invariant Mirrors(jobs, ts) && Mirrors([job], [child])
    {
      var parentJob := jobs[i];
      MirrorsEntry(jobs, ts, i);
      MirrorsLength(parentJob.childJobs, ts[i].children);
      InsertAt(ts, child, i);
      PartsApart(ts, i, all);
      OtherForestApart(ts, child, i, all);
      if job.job.parentJob == parentJob.job.name {
        HangUnder(parentJob, job, ts[i].children, child);
        assert Mirrors(jobs[..i], ts[..i]);
        assert Mirrors(jobs[i + 1..], ts[i + 1..]);
        MirrorsReplaced(jobs, ts, i, Tree(parentJob, ts[i].children + [child]));
        return true;
      } else {
        if |parentJob.childJobs| > 0 {
          var found := FindParentJobInChildJobs(parentJob.childJobs, job, ts[i].children, child, all);
          assert Mirrors(jobs[..i], ts[..i]);
          assert Mirrors(jobs[i + 1..], ts[i + 1..]);
          assert Mirrors([job], [child]);
          if found {
            MirrorsReplaced(jobs, ts, i, Tree(parentJob, Insert(ts[i].children, child).value));
            return true;
          }
          MirrorsKept(jobs, ts, i);
        }
      }
    }
    InsertNowhere(ts, child);
    return false;
  }

  // Where the list takes the child when the entries before `k` do not.
  lemma {:induction false} AttachSkips(ts: seq<Tree>, child: Tree, k: nat)
    requires k <= |ts| && forall m | 0 <= m < k :: Name(ts[m]) == Name(child) || Insert([ts[m]], child).None?
    ensures Attach(ts, child).Some? <==> Attach(ts[k..], child).Some?
    ensures Attach(ts[k..], child).Some? ==> Attach(ts, child).value == ts[..k] + Attach(ts[k..], child).value
  {
    hide Insert;
    if k > 0 {
      AttachSkips(ts[1..], child, k - 1);
      assert ts[1..][k - 1..] == ts[k..] && [ts[0]] + ts[1..][..k - 1] == ts[..k];
    } else {
      assert ts[0..] == ts;
    }
  }

  lemma InsertIntoOne(t: Tree, child: Tree)
    ensures Insert([t], child) ==
            if Parent(child) == Name(t) then Some([Tree(t.node, t.children + [child])])
            else match Insert(t.children, child)
                 case Some(children) => Some([Tree(t.node, children)])
                 case None => None
  {
    assert [t][1..] == [] && Insert([t][1..], child).None?;
    var here := Tree(t.node, t.children + [child]);
    assert [here] + [t][1..] == [here];
    var below := Insert(t.children, child);
    if below.Some? {
      assert [Tree(t.node, below.value)] + [t][1..] == [Tree(t.node, below.value)];
    }
  }

  lemma AttachAt(ts: seq<Tree>, child: Tree, k: nat, t: Tree)
    requires k < |ts| && Name(ts[k]) != Name(child) && Insert([ts[k]], child) == Some([t])
    requires forall m | 0 <= m < k :: Name(ts[m]) == Name(child) || Insert([ts[m]], child).None?
    ensures Attach(ts, child) == Some(ts[..k] + ([t] + ts[k + 1..]))
  {
    hide Insert;
    AttachSkips(ts, child, k);
    assert ts[k..][0] == ts[k] && ts[k..][1..] == ts[k + 1..];
  }

  lemma AttachNowhere(ts: seq<Tree>, child: Tree)
    requires forall m | 0 <= m < |ts| :: Name(ts[m]) == Name(child) || Insert([ts[m]], child).None?
    ensures Attach(ts, child).None?
  {
    AttachSkips(ts, child, |ts|);
  }

  lemma MirrorsWithout(list: seq<JobNode>, ts: seq<Tree>, i: nat)
    requires Mirrors(list, ts) && i < |ts|
    ensures i < |list| && Mirrors(list[..i] + list[i + 1..], Without(ts, i))
  {
    hide Mirrors;
    MirrorsLength(list, ts);
    MirrorsEntry(list, ts, i);
    MirrorsConcat(list[..i], list[i + 1..], ts[..i], ts[i + 1..]);
  }

  /** One round of the builder: checks the job at `index`, and moves it under its parent unless it has none. */
  method FindParentJobAndValidateJob(
      libs: Libs, jobs: seq<JobNode>, index: nat, ghost ts: seq<Tree>, ghost all: set<JobNode>)
    returns (rejobs: seq<JobNode>, isTopParentNodeFlag: bool, error: Option<Error>)
    requires index < |jobs| && Mirrors(jobs, ts) && Unique(Nodes(ts)) && Objects(ts) <= all
    modifies Objects(ts)
    ensures index < |ts|
    ensures var invalid := Validate(libs, ts[index].node.job);
            if invalid.Some? then error == invalid
            else if Parent(ts[index]) == "" then error.None? && isTopParentNodeFlag && Mirrors(rejobs, ts)
            else
              var attached := Attach(ts, ts[index]);
              if attached.None? then error == Some(NoParent)
              else && error.None? && !isTopParentNodeFlag && |attached.value| == |ts|
                   && Mirrors(rejobs, Without(attached.value, index))
  {
    hide Validate, Nodes, Unique, Mirrors, Insert, Attach;
    MirrorsLength(jobs, ts);
    MirrorsEntry(jobs, ts, index);
    var childJob := jobs[index];
    var invalid := Validate(libs, childJob.job);
    if invalid.Some? {
      return [], false, invalid;
    }
    if childJob.job.parentJob == "" {
      return jobs, true, None;
    }
    for k := 0 to |jobs|
      invariant forall m | 0 <= m < k :: Name(ts[m]) == Name(ts[index]) || Insert([ts[m]], ts[index]).None?
      invariant Mirrors(jobs, ts)
    {
      var parentJob := jobs[k];
      MirrorsEntry(jobs, ts, index);
      MirrorsEntry(jobs, ts, k);
      MirrorsLength(parentJob.childJobs, ts[k].children);
      InsertIntoOne(ts[k], ts[index]);
      if parentJob.job.name == childJob.job.name {
        continue;
      }
      PartsApart(ts, k, all);
      OtherEntryApart(ts, index, k, all);
      if childJob.job.parentJob == parentJob.job.name {
        ghost var t := Tree(parentJob, ts[k].children + [ts[index]]);
        AttachAt(ts, ts[index], k, t);
        HangUnder(parentJob, childJob, ts[k].children, ts[index]);
        assert Mirrors(jobs[..k], ts[..k]);
        assert Mirrors(jobs[k + 1..], ts[k + 1..]);
        MirrorsReplaced(jobs, ts, k, t);
        MirrorsWithout(jobs, ts[..k] + ([t] + ts[k + 1..]), index);
        return jobs[..index] + jobs[index + 1..], false, None;
      }
      if |parentJob.childJobs| > 0 {
        var flag := FindParentJobInChildJobs(parentJob.childJobs, childJob, ts[k].children, ts[index], all);
        assert Mirrors(jobs[..k], ts[..k]);
        assert Mirrors(jobs[k + 1..], ts[k + 1..]);
        if flag {
          ghost var t := Tree(parentJob, Insert(ts[k].children, ts[index]).value);
          AttachAt(ts, ts[index], k, t);
          MirrorsReplaced(jobs, ts, k, t);
          MirrorsWithout(jobs, ts[..k] + ([t] + ts[k + 1..]), index);
          return jobs[..index] + jobs[index + 1..], false, None;
        }
        MirrorsKept(jobs, ts, k);
      }
      InsertIntoNothing(ts[index]);
    }
    AttachNowhere(ts, ts[index]);
    return [], false, Some(NoParent);
  }

  lemma InsertIntoNothing(child: Tree)
    ensures Insert([], child).None?
  {
  }

  lemma UniqueLeaves(jobs: seq<JobNode>)
    requires forall i, k | 0 <= i < k < |jobs| :: jobs[i] != jobs[k]
    ensures Unique(Nodes(Leaves(jobs))) && Objects(Leaves(jobs)) == set n | n in jobs
  {
    NodesOfLeaves(jobs);
    DistinctAreUnique(jobs);
  }

  lemma {:induction false} DistinctAreUnique(jobs: seq<JobNode>)
    requires forall i, k | 0 <= i < k < |jobs| :: jobs[i] != jobs[k]
    ensures Unique(multiset(jobs))
  {
    if jobs != [] {
      var first, rest := jobs[0], jobs[1..];
      assert jobs == [first] + rest;
      DistinctAreUnique(rest);
      forall i | 0 <= i < |rest| ensures rest[i] != first {
        assert jobs[i + 1] == rest[i];
      }
      forall n | n in multiset(jobs) ensures multiset(jobs)[n] == 1 {
        assert multiset(jobs)[n] == multiset([first])[n] + multiset(rest)[n];
      }
    }
  }

  lemma {:induction false} MirrorsLeaves(jobs: seq<JobNode>)
    requires forall i | 0 <= i < |jobs| :: jobs[i].childJobs == []
    ensures Mirrors(jobs, Leaves(jobs))
  {
    if jobs != [] {
      assert Leaves(jobs)[1..] == Leaves(jobs[1..]);
      MirrorsLeaves(jobs[1..]);
      assert Mirrors([], Leaves(jobs)[0].children);
    }
  }

  // One round leaves the same objects.
  lemma MoveKeepsObjects(ts: seq<Tree>, j: nat)
    requires j < |ts| && Attach(ts, ts[j]).Some?
    ensures var attached := Attach(ts, ts[j]).value;
            |attached| == |ts| && Nodes(Without(attached, j)) == Nodes(ts)
  {
    hide Nodes, WellPlaced, Attach;
    var attached := Attach(ts, ts[j]).value;
    AttachAdds(ts, ts[j]);
    EntryIsPart(ts, j);
    EntryIsPart(attached, j);
    MovedNodes(Nodes(ts), Nodes([ts[j]]), Nodes(attached), Nodes(Without(attached, j)));
  }

  /** Builds the tree of an uploaded list, or reports the first problem. The index never leaves the list: every round
      shortens what is ahead of it by one. */
  method GenerateJobTree(libs: Libs, uploaded: seq<JobNode>) returns (r: Result<seq<JobNode>, Error>)
    requires forall i, k | 0 <= i < k < |uploaded| :: uploaded[i] != uploaded[k]
    requires forall i | 0 <= i < |uploaded| :: uploaded[i].childJobs == []
    modifies set n | n in uploaded
    ensures var built := BuildTree(libs, Leaves(uploaded), 0);
            if built.Ok? then r.Ok? && Mirrors(r.value, built.value) else r == Err(built.error)
  {
    ghost var all := set n | n in uploaded;
    ghost var ts := Leaves(uploaded);
    UniqueLeaves(uploaded);
    MirrorsLeaves(uploaded);
    var jobs := uploaded;
    var length := |jobs|;
    var j := 0;
    hide Validate, BuildTree, Nodes, Objects, Unique, Mirrors, Attach, Leaves;
    for i := 0 to length
      invariant j <= |jobs| == |ts| && |jobs| - j == length - i
      invariant Mirrors(jobs, ts) && Unique(Nodes(ts)) && Objects(ts) == all
      invariant BuildTree(libs, Leaves(uploaded), 0) == BuildTree(libs, ts, j)
    {
      BuildTreeRound(libs, ts, j);
      var rejobs, isTopParentNodeFlag, error := FindParentJobAndValidateJob(libs, jobs, j, ts, all);
      if error.Some? {
        return Err(error.value);
      }
      if isTopParentNodeFlag {
        j := j + 1;
      } else {
        MoveKeepsObjects(ts, j);
        ts := Without(Attach(ts, ts[j]).value, j);
      }
      jobs := rejobs;
      MirrorsLength(jobs, ts);
    }
    BuildTreeEnds(libs, ts);
    return Ok(jobs);
  }

  lemma BuildTreeEnds(libs: Libs, ts: seq<Tree>)
    ensures BuildTree(libs, ts, |ts|) == Ok(ts)
  {
  }

  lemma BuildTreeRound(libs: Libs, ts: seq<Tree>, j: nat)
    requires j < |ts|
    ensures var invalid, attached := Validate(libs, ts[j].node.job), Attach(ts, ts[j]);
            BuildTree(libs, ts, j) ==
              if invalid.Some? then Err(invalid.value)
              else if Parent(ts[j]) == "" then BuildTree(libs, ts, j + 1)
              else if attached.None? || |attached.value| != |ts| then Err(NoParent)
              else BuildTree(libs, Without(attached.value, j), j)
  {
    hide Validate, Attach;
  }

  // ---- Lists in which a name occurs twice ----

  lemma AttachFirst(t: Tree, rest: seq<Tree>, child: Tree)
    ensures Attach([t] + rest, child) ==
            if Name(t) != Name(child) && Parent(child) == Name(t) then Some([Tree(t.node, t.children + [child])] + rest)
            else if Name(t) == Name(child) then
              match Attach(rest, child)
              case Some(more) => Some([t] + more)
              case None => None
            else Attach([t] + rest, child)
  {
    hide Insert;
    InsertIntoOne(t, child);
    assert ([t] + rest)[1..] == rest;
  }

  /** Without distinct names the order of the list decides: of a root and a child that share a name, and a job that is
      the parent of the one and the child of the name, one order fails and another one is built. */
  lemma OrderDecides(libs: Libs, p: JobNode, x: JobNode, root: JobNode)
    requires Validate(libs, p.job).None? && Validate(libs, x.job).None? && Validate(libs, root.job).None?
    requires root.job.name == x.job.name && p.job.parentJob == x.job.name && x.job.parentJob == p.job.name
    requires root.job.parentJob == "" && p.job.name != x.job.name
    ensures BuildTree(libs, Leaves([p, x, root]), 0).Err?
    ensures BuildTree(libs, Leaves([x, root, p]), 0).Ok?
  {
    ValidIsNamed(libs, p.job);
    ValidIsNamed(libs, x.job);
    hide Validate;
    var tp, tx, tr := Tree(p, []), Tree(x, []), Tree(root, []);
    ChildFirst(libs, tp, tx, tr);
    RootFirst(libs, tp, tx, tr);
    assert Leaves([p, x, root]) == [tp, tx, tr] && Leaves([x, root, p]) == [tx, tr, tp];
  }

  // Two jobs of which each is named as its parent by the other, and a root that shares the name of one.
  ghost predicate Entangled(libs: Libs, p: Tree, x: Tree, root: Tree) {
    && Validate(libs, p.node.job).None? && Validate(libs, x.node.job).None? && Validate(libs, root.node.job).None?
    && Name(root) == Name(x) && Parent(p) == Name(x) && Parent(x) == Name(p) && Parent(root) == ""
    && Name(p) != Name(x) && Name(p) != "" && Name(x) != ""
  }

  lemma ChildFirst(libs: Libs, p: Tree, x: Tree, root: Tree)
    requires Entangled(libs, p, x, root)
    ensures BuildTree(libs, [p, x, root], 0).Err?
  {
    hide Validate, BuildTree, Attach;
    var ts := [p, x, root];
    var holder := Tree(x.node, x.children + [p]);
    assert ts == [p] + ([x] + [root]);
    AttachFirst(p, [x] + [root], p);
    AttachFirst(x, [root], p);
    var attached := [p] + ([holder] + [root]);
    BuildTreeRound(libs, ts, 0);
    assert Without(attached, 0) == [holder] + [root];
    AttachFirst(holder, [root], holder);
    assert [root] == [root] + [];
    AttachFirst(root, [], holder);
    AttachNothing(holder);
    BuildTreeRound(libs, [holder] + [root], 0);
  }

  lemma AttachNothing(child: Tree)
    ensures Attach([], child).None?
  {
  }

  lemma RootFirst(libs: Libs, p: Tree, x: Tree, root: Tree)
    requires Entangled(libs, p, x, root)
    ensures BuildTree(libs, [x, root, p], 0).Ok?
  {
    hide Validate, BuildTree, Attach;
    var ts := [x, root, p];
    var holder := Tree(p.node, p.children + [x]);
    assert ts == [x] + ([root] + ([p] + []));
    AttachFirst(x, [root] + ([p] + []), x);
    AttachFirst(root, [p] + [], x);
    AttachFirst(p, [], x);
    var attached := [x] + ([root] + ([holder] + []));
    BuildTreeRound(libs, ts, 0);
    var left := [root] + [holder];
    assert Without(attached, 0) == left;
    BuildTreeRound(libs, left, 0);
    AttachFirst(root, [holder], holder);
    BuildTreeRound(libs, left, 1);
    var top := Tree(root.node, root.children + [holder]);
    assert Without([top] + [holder], 1) == [top];
    BuildTreeEnds(libs, [top]);
  }
}
