/** Restoring a backup: the jobs of the uploaded list are set parent first, down the tree that was built from it. */
module Restore {
  import opened Wrappers
  import opened Types
  import opened Keys
  import opened Commands
  import opened Fsm
  import opened References
  import opened CronTable
  import opened Rpc
  import opened JobTree
  import opened ParentChains

  const CREATED: string := "success create "
  const NOT_CREATED: string := "fail create "

  // `calls` counts the SetJob requests made so far.
  datatype Replayed = Replayed(leader: Leader, report: seq<string>, calls: nat)

  /** Sets the jobs of a forest in preorder, each with the clock readings of its call. Below a job that fails nothing
      is set. */
  function Replay(libs: Libs, l: Leader, ts: seq<Tree>, clocks: nat -> Clock, calls: nat): Replayed
    decreases ts
  {
    if ts == [] then Replayed(l, [], calls)
    else
      var set_ := SetJobRequest(libs, l, ts[0].node.job, clocks(calls));
      var below := if set_.reply == Done then
                     var r := Replay(libs, set_.leader, ts[0].children, clocks, calls + 1);
                     Replayed(r.leader, [CREATED + Name(ts[0])] + r.report, r.calls)
                   else Replayed(set_.leader, [NOT_CREATED + Name(ts[0])], calls + 1);
      var rest := Replay(libs, below.leader, ts[1..], clocks, below.calls);
      Replayed(rest.leader, below.report + rest.report, rest.calls)
  }

  /** Whatever succeeds or fails, the report has one line for each SetJob request, and each has its own readings of the
      clock. */
  lemma {:induction false} ReplayCountsCalls(libs: Libs, l: Leader, ts: seq<Tree>, clocks: nat -> Clock, calls: nat)
    ensures var r := Replay(libs, l, ts, clocks, calls); r.calls == calls + |r.report|
    decreases ts
  {
    hide SetJobRequest;
    if ts != [] {
      var set_ := SetJobRequest(libs, l, ts[0].node.job, clocks(calls));
      ReplayCountsCalls(libs, set_.leader, ts[0].children, clocks, calls + 1);
      var r := Replay(libs, set_.leader, ts[0].children, clocks, calls + 1);
      var leader, more := if set_.reply == Done then r.leader else set_.leader,
                          if set_.reply == Done then r.calls else calls + 1;
      ReplayCountsCalls(libs, leader, ts[1..], clocks, more);
    }
  }

  /** A job whose request fails is reported so, and nothing is set below it. */
  lemma FailedJobIsReported(libs: Libs, l: Leader, t: Tree, clocks: nat -> Clock, calls: nat)
    requires SetJobRequest(libs, l, t.node.job, clocks(calls)).reply != Done
    ensures Replay(libs, l, [t], clocks, calls) ==
            Replayed(SetJobRequest(libs, l, t.node.job, clocks(calls)).leader,
                     ["fail create " + t.node.job.name], calls + 1)
  {
    hide SetJobRequest;
    assert [t][1..] == [];
  }

  ghost function Preorder(ts: seq<Tree>): seq<JobNode> {
    if ts == [] then [] else [ts[0].node] + Preorder(ts[0].children) + Preorder(ts[1..])
  }

  ghost function Created(nodes: seq<JobNode>): seq<string> {
    seq(|nodes|, i requires 0 <= i < |nodes| => CREATED + nodes[i].job.name)
  }

  ghost function HeadNames(ts: seq<Tree>): seq<string> {
    seq(|ts|, i requires 0 <= i < |ts| => Name(ts[i]))
  }

  // The names in a forest.
  ghost function Names(ts: seq<Tree>): set<string> {
    if ts == [] then {} else {Name(ts[0])} + Names(ts[0].children) + Names(ts[1..])
  }

  // No name occurs twice.
  ghost predicate DistinctTree(ts: seq<Tree>) {
    ts != [] ==>
      && Name(ts[0]) !in Names(ts[0].children) && Name(ts[0]) !in Names(ts[1..])
      && Names(ts[0].children) !! Names(ts[1..])
      && DistinctTree(ts[0].children) && DistinctTree(ts[1..])
  }

  ghost predicate Fit(libs: Libs, ts: seq<Tree>) {
    ts != [] ==> Validate(libs, ts[0].node.job).None? && Fit(libs, ts[0].children) && Fit(libs, ts[1..])
  }

  /** The store holds the forest: every job has the parent that it has in the forest, and lists its children in order,
      behind the dependents that it came with. */
  ghost predicate Restored(jobs: JobMap, ts: seq<Tree>) {
    ts != [] ==>
      && Name(ts[0]) in jobs && jobs[Name(ts[0])].parentJob == Parent(ts[0])
      && jobs[Name(ts[0])].dependentJobs == ts[0].node.job.dependentJobs + HeadNames(ts[0].children)
      && Restored(jobs, ts[0].children) && Restored(jobs, ts[1..])
  }

  predicate SameLinks(j: Job, k: Job) {
    j.parentJob == k.parentJob && j.dependentJobs == k.dependentJobs
  }

  lemma {:induction false} RestoredStays(jobs: JobMap, after: JobMap, ts: seq<Tree>)
    requires Restored(jobs, ts) && Names(ts) <= jobs.Keys
    requires forall n | n in Names(ts) :: n in after && SameLinks(jobs[n], after[n])
    ensures Restored(after, ts)
  {
    if ts != [] {
      assert SameLinks(jobs[Name(ts[0])], after[Name(ts[0])]);
      RestoredStays(jobs, after, ts[0].children);
      RestoredStays(jobs, after, ts[1..]);
    }
  }

  // What setting new jobs under `p` does to the jobs that were there: `p` lists the new ones behind its old dependents.
  ghost predicate Extends(jobs: JobMap, after: JobMap, p: string, added: seq<string>) {
    forall n | n in jobs ::
      && n in after && after[n].parentJob == jobs[n].parentJob
      && after[n].dependentJobs == jobs[n].dependentJobs + (if n == p then added else [])
  }

  lemma NewVersionOfNew(libs: Libs, s: State, job: Job, clock: Clock)
    requires job.name !in s.jobs
    ensures var version := NewVersion(libs, s, job, true, clock);
            version == job.(next := version.next) && Stored(s, job.name).parentJob == ""
  {
    hide Validate, GetNext;
  }

  /** A new job whose parent is stored is stored with its parent, and its parent lists it last. */
  lemma SetNewJob(libs: Libs, l: Leader, job: Job, clock: Clock)
    requires InStep(libs, l) && ZoneLaw(libs) && Validate(libs, job).None?
    requires job.name !in l.state.jobs && (job.parentJob != "" ==> job.parentJob in l.state.jobs)
    ensures var r := SetJobRequest(libs, l, job, clock);
            && r.reply == Done && InStep(libs, r.leader)
            && r.leader.state.jobs.Keys == l.state.jobs.Keys + {job.name}
            && SameLinks(job, r.leader.state.jobs[job.name])
            && Extends(l.state.jobs, r.leader.state.jobs, job.parentJob, [job.name])
  {
    hide SetJob, Add, Agrees, UniqueIds, ZoneLaw, Validate, NewVersion, Consistent, Wanted;
    ValidSetJobStaysInStep(libs, l, job, clock);
    SetJobEffect(libs, l.state, job, true, clock);
    NewVersionOfNew(libs, l.state, job, clock);
    ConsistentNames(libs, l.state);
    ValidIsNamed(libs, job);
    ReplacedByNew(l.state.jobs, NewVersion(libs, l.state, job, true, clock));
  }

  lemma ConsistentNames(libs: Libs, s: State)
    requires Consistent(libs, s)
    ensures "" !in s.jobs
  {
    forall n | n in s.jobs ensures n != "" {
      assert Linked(s.jobs, n);
    }
  }

  lemma ReplacedByNew(jobs: JobMap, version: Job)
    requires version.name !in jobs && "" !in jobs && version.parentJob != version.name
    requires version.parentJob != "" ==> version.parentJob in jobs
    ensures var after := Replaced(jobs, version, "");
            && after.Keys == jobs.Keys + {version.name} && after[version.name] == version
            && Extends(jobs, after, version.parentJob, [version.name])
  {
    hide Unlink;
  }

  /** What a replay of new jobs under `p` leads to. */
  ghost predicate ReplayedUnder(libs: Libs, l: Leader, ts: seq<Tree>, p: string, r: Replayed) {
    && InStep(libs, r.leader) && r.report == Created(Preorder(ts))
    && r.leader.state.jobs.Keys == l.state.jobs.Keys + Names(ts)
    && Restored(r.leader.state.jobs, ts)
    && Extends(l.state.jobs, r.leader.state.jobs, p, HeadNames(ts))
  }

  lemma {:induction false} ReplaySucceeds(
      libs: Libs, l: Leader, ts: seq<Tree>, clocks: nat -> Clock, calls: nat, p: string)
    requires InStep(libs, l) && ZoneLaw(libs) && Fit(libs, ts) && DistinctTree(ts) && WellPlaced(ts) && AllUnder(ts, p)
    requires Names(ts) !! l.state.jobs.Keys && (p != "" ==> p in l.state.jobs)
    ensures ReplayedUnder(libs, l, ts, p, Replay(libs, l, ts, clocks, calls))
    decreases ts
  {
    if ts == [] {
      ReplayOfNothing(libs, l, ts, clocks, calls, p);
    } else {
      hide InStep, ZoneLaw, Validate, SetJobRequest, Restored, Extends, Replay, Fit, DistinctTree, WellPlaced,
           AllUnder, Names, HeadNames, Created, Preorder;
      var t, rest := ts[0], ts[1..];
      var set_ := SetJobRequest(libs, l, t.node.job, clocks(calls));
      FirstOf(libs, ts, p);
      SetNewJob(libs, l, t.node.job, clocks(calls));
      ReplaySucceeds(libs, set_.leader, t.children, clocks, calls + 1, Name(t));
      var below := Replay(libs, set_.leader, t.children, clocks, calls + 1);
      ReplaySucceeds(libs, below.leader, rest, clocks, below.calls, p);
      var last := Replay(libs, below.leader, rest, clocks, below.calls);
      ReplayCons(libs, l, ts, clocks, calls);
      ReplayedTogether(libs, l, set_.leader, below, last, ts, p);
    }
  }

  lemma ReplayedTogether(
      libs: Libs, l: Leader, first: Leader, below: Replayed, last: Replayed, ts: seq<Tree>, p: string)
    requires ts != [] && Fit(libs, ts) && DistinctTree(ts) && WellPlaced(ts) && AllUnder(ts, p)
    requires Names(ts) !! l.state.jobs.Keys && (p != "" ==> p in l.state.jobs)
    requires first.state.jobs.Keys == l.state.jobs.Keys + {Name(ts[0])}
             && SameLinks(ts[0].node.job, first.state.jobs[Name(ts[0])])
    requires Extends(l.state.jobs, first.state.jobs, p, [Name(ts[0])])
    requires ReplayedUnder(libs, first, ts[0].children, Name(ts[0]), below)
             && ReplayedUnder(libs, below.leader, ts[1..], p, last)
    ensures ReplayedUnder(
              libs, l, ts, p, Replayed(last.leader, [CREATED + Name(ts[0])] + below.report + last.report, last.calls))
  {
    hide InStep, Validate, Restored, Extends, Fit, DistinctTree, WellPlaced, AllUnder, Names, HeadNames, Created,
         Preorder;
    FirstOf(libs, ts, p);
    ReportCons(ts);
    hide Fit, DistinctTree;
    InStepNames(libs, last.leader);
    OneAndTheRest(l.state.jobs, first.state.jobs, below.leader.state.jobs, last.leader.state.jobs, ts, p);
  }

  lemma InStepNames(libs: Libs, l: Leader)
    requires InStep(libs, l)
    ensures "" !in l.state.jobs
  {
    hide Consistent;
    ConsistentNames(libs, l.state);
  }

  // What the conditions on a forest say about its first tree and the others.
  lemma FirstOf(libs: Libs, ts: seq<Tree>, p: string)
    requires ts != [] && Fit(libs, ts) && DistinctTree(ts) && WellPlaced(ts) && AllUnder(ts, p)
    ensures var t, rest := ts[0], ts[1..];
            && Validate(libs, t.node.job).None? && Parent(t) == p
            && Fit(libs, t.children) && DistinctTree(t.children)
            && WellPlaced(t.children) && AllUnder(t.children, Name(t))
            && Fit(libs, rest) && DistinctTree(rest) && WellPlaced(rest) && AllUnder(rest, p)
            && Names(ts) == {Name(t)} + Names(t.children) + Names(rest)
            && Name(t) !in Names(t.children) && Name(t) !in Names(rest) && Names(t.children) !! Names(rest)
  {
    hide Validate;
    assert forall i | 0 <= i < |ts[1..]| :: ts[1..][i] == ts[i + 1];
  }

  lemma ReplayCons(libs: Libs, l: Leader, ts: seq<Tree>, clocks: nat -> Clock, calls: nat)
    requires ts != []
    ensures var set_ := SetJobRequest(libs, l, ts[0].node.job, clocks(calls));
            var below := Replay(libs, set_.leader, ts[0].children, clocks, calls + 1);
            var last := Replay(libs, below.leader, ts[1..], clocks, below.calls);
            set_.reply == Done ==>
              Replay(libs, l, ts, clocks, calls) ==
                  Replayed(last.leader, [CREATED + Name(ts[0])] + below.report + last.report, last.calls)
  {
    hide SetJobRequest;
  }

  lemma ReplayOfNothing(libs: Libs, l: Leader, ts: seq<Tree>, clocks: nat -> Clock, calls: nat, p: string)
    requires InStep(libs, l) && ts == []
    ensures ReplayedUnder(libs, l, ts, p, Replay(libs, l, ts, clocks, calls))
  {
    hide InStep;
  }

  lemma ReportCons(ts: seq<Tree>)
    requires ts != []
    ensures Created(Preorder(ts)) ==
            [CREATED + Name(ts[0])] + Created(Preorder(ts[0].children)) + Created(Preorder(ts[1..]))
  {
  }

  lemma OneAndTheRest(jobs: JobMap, set_: JobMap, below: JobMap, last: JobMap, ts: seq<Tree>, p: string)
    requires ts != [] && Names(ts) !! jobs.Keys && Parent(ts[0]) == p
    requires Names(ts) == {Name(ts[0])} + Names(ts[0].children) + Names(ts[1..])
    requires Name(ts[0]) !in Names(ts[0].children)
    requires set_.Keys == jobs.Keys + {Name(ts[0])} && SameLinks(ts[0].node.job, set_[Name(ts[0])])
    requires below.Keys == set_.Keys + Names(ts[0].children) && last.Keys == below.Keys + Names(ts[1..])
    requires Extends(jobs, set_, p, [Name(ts[0])]) && Extends(set_, below, Name(ts[0]), HeadNames(ts[0].children))
    requires Extends(below, last, p, HeadNames(ts[1..]))
    requires Restored(below, ts[0].children) && Restored(last, ts[1..]) && (p != "" ==> p in jobs) && "" !in last
    ensures Restored(last, ts) && Extends(jobs, last, p, HeadNames(ts)) && last.Keys == jobs.Keys + Names(ts)
  {
    hide Names, ExecKey, Restored, HeadNames;
    var t := ts[0];
    HeadNamesCons(ts);
    ExtendsThrice(jobs, set_, below, last, Name(t), p, HeadNames(t.children), HeadNames(ts[1..]));
    forall n | n in Names(t.children) ensures n in last && SameLinks(below[n], last[n]) {
      assert n != p;
    }
    RestoredStays(below, last, t.children);
    HeadIsSettled(set_, below, last, Name(t), p, HeadNames(t.children), HeadNames(ts[1..]));
    RestoredCons(last, ts);
  }

  lemma HeadNamesCons(ts: seq<Tree>)
    requires ts != []
    ensures HeadNames(ts) == [Name(ts[0])] + HeadNames(ts[1..])
  {
  }

  lemma RestoredCons(jobs: JobMap, ts: seq<Tree>)
    requires ts != [] && Name(ts[0]) in jobs && jobs[Name(ts[0])].parentJob == Parent(ts[0])
    requires jobs[Name(ts[0])].dependentJobs == ts[0].node.job.dependentJobs + HeadNames(ts[0].children)
    requires Restored(jobs, ts[0].children) && Restored(jobs, ts[1..])
    ensures Restored(jobs, ts)
  {
  }

  lemma ExtendsThrice(
      jobs: JobMap, a: JobMap, b: JobMap, c: JobMap, first: string, p: string, inner: seq<string>, outer: seq<string>)
    requires Extends(jobs, a, p, [first]) && Extends(a, b, first, inner) && Extends(b, c, p, outer) && first !in jobs
    ensures Extends(jobs, c, p, [first] + outer)
  {
    hide ExecKey;
    forall n | n in jobs
      ensures n in c && c[n].parentJob == jobs[n].parentJob
      ensures c[n].dependentJobs == jobs[n].dependentJobs + if n == p then [first] + outer else []
    {
      assert n in a && n in b;
    }
  }

  lemma HeadIsSettled(a: JobMap, b: JobMap, c: JobMap, first: string, p: string, inner: seq<string>, outer: seq<string>)
    requires Extends(a, b, first, inner) && Extends(b, c, p, outer) && first in a && first != p
    ensures first in c && c[first].parentJob == a[first].parentJob
            && c[first].dependentJobs == a[first].dependentJobs + inner
  {
    assert first in b;
  }

  // ---- The backup as a list ----

  lemma {:induction false} InNames(ts: seq<Tree>, name: string)
    ensures name in Names(ts) <==> HasName(ts, name)
  {
    if ts != [] {
      InNames(ts[0].children, name);
      InNames(ts[1..], name);
      if name in Names(ts) {
        if name == Name(ts[0]) {
          assert ts[0].node in Nodes(ts);
        } else if name in Names(ts[0].children) {
          var n :| n in Nodes(ts[0].children) && n.job.name == name;
          assert n in Nodes(ts);
        } else {
          var n :| n in Nodes(ts[1..]) && n.job.name == name;
          assert n in Nodes(ts);
        }
      }
    }
  }

  // Different nodes have different names.
  ghost predicate NamesDiffer(ns: multiset<JobNode>) {
    forall n, m | n in ns && m in ns && n.job.name == m.job.name :: n == m
  }

  lemma {:induction false} DistinctForest(ts: seq<Tree>)
    requires Unique(Nodes(ts)) && NamesDiffer(Nodes(ts))
    ensures DistinctTree(ts)
  {
    if ts != [] {
      hide Nodes, Names, DistinctTree, Unique, NamesDiffer;
      PartsOf(ts);
      DistinctForest(ts[0].children);
      DistinctForest(ts[1..]);
    }
  }

  lemma PartsOf(ts: seq<Tree>)
    requires ts != [] && Unique(Nodes(ts)) && NamesDiffer(Nodes(ts))
    ensures Unique(Nodes(ts[0].children)) && NamesDiffer(Nodes(ts[0].children))
    ensures Unique(Nodes(ts[1..])) && NamesDiffer(Nodes(ts[1..]))
    ensures Name(ts[0]) !in Names(ts[0].children) && Name(ts[0]) !in Names(ts[1..])
    ensures Names(ts[0].children) !! Names(ts[1..])
  {
    hide Nodes, Names, Unique, NamesDiffer;
    var t, rest := ts[0], ts[1..];
    assert ts == [t] + rest;
    NodesCons(t, rest);
    assert Names(t.children) !! Names(rest) by {
      PartsDiffer(Nodes(ts), t.node, Nodes(t.children), Nodes(rest));
      NamesApart(t.children, rest);
    }
    assert Name(t) !in Names(t.children) && Name(t) !in Names(rest) by {
      HeadDiffers(Nodes(ts), t.node, Nodes(t.children), Nodes(rest));
      NameApart(t.node, t.children);
      NameApart(t.node, rest);
    }
    PartsUnique(Nodes(ts), t.node, Nodes(t.children), Nodes(rest));
  }

  lemma NamesApart(a: seq<Tree>, b: seq<Tree>)
    requires forall m, k | m in Nodes(a) && k in Nodes(b) :: m.job.name != k.job.name
    ensures Names(a) !! Names(b)
  {
    hide Nodes, Names;
    forall name ensures name !in Names(a) || name !in Names(b) {
      InNames(a, name);
      InNames(b, name);
    }
  }

  lemma NameApart(n: JobNode, ts: seq<Tree>)
    requires forall m | m in Nodes(ts) :: m.job.name != n.job.name
    ensures n.job.name !in Names(ts)
  {
    hide Nodes, Names;
    InNames(ts, n.job.name);
  }

  lemma PartsUnique(all: multiset<JobNode>, n: JobNode, a: multiset<JobNode>, b: multiset<JobNode>)
    requires all == multiset{n} + a + b && Unique(all) && NamesDiffer(all)
    ensures Unique(a) && Unique(b) && NamesDiffer(a) && NamesDiffer(b)
  {
    forall m: JobNode ensures (if m == n then 1 else 0) + a[m] + b[m] == all[m] && (m in all ==> all[m] == 1) {
    }
  }

  lemma PartsDiffer(all: multiset<JobNode>, n: JobNode, a: multiset<JobNode>, b: multiset<JobNode>)
    requires all == multiset{n} + a + b && Unique(all) && NamesDiffer(all)
    ensures forall m, k | m in a && k in b :: m.job.name != k.job.name
  {
    forall m: JobNode ensures (if m == n then 1 else 0) + a[m] + b[m] == all[m] && (m in all ==> all[m] == 1) {
    }
  }

  lemma HeadDiffers(all: multiset<JobNode>, n: JobNode, a: multiset<JobNode>, b: multiset<JobNode>)
    requires all == multiset{n} + a + b && Unique(all) && NamesDiffer(all)
    ensures forall m | m in a :: m.job.name != n.job.name
    ensures forall m | m in b :: m.job.name != n.job.name
  {
    assert all[n] == 1 + a[n] + b[n];
    forall m: JobNode ensures (if m == n then 1 else 0) + a[m] + b[m] == all[m] && (m in all ==> all[m] == 1) {
    }
  }

  lemma {:induction false} FitForest(libs: Libs, ts: seq<Tree>)
    requires forall n | n in Nodes(ts) :: Validate(libs, n.job).None?
    ensures Fit(libs, ts)
  {
    hide Validate;
    if ts != [] {
      assert ts[0].node in Nodes(ts);
      FitForest(libs, ts[0].children);
      FitForest(libs, ts[1..]);
    }
  }

  lemma {:induction false} PreorderIsEveryNode(ts: seq<Tree>)
    ensures multiset(Preorder(ts)) == Nodes(ts)
  {
    if ts != [] {
      PreorderIsEveryNode(ts[0].children);
      PreorderIsEveryNode(ts[1..]);
    }
  }

  /** Restoring a backup into a store that has none of its jobs: when the tree is built, every SetJob request succeeds,
      the report has one line for each job, and the store ends up with the parents of the tree, where every job lists
      its children behind the dependents that it came with. */
  lemma RestoreSucceeds(libs: Libs, l: Leader, jobs: seq<JobNode>, clocks: nat -> Clock)
    requires InStep(libs, l) && ZoneLaw(libs) && DistinctNames(jobs) && BuildTree(libs, Leaves(jobs), 0).Ok?
    requires forall i | 0 <= i < |jobs| :: jobs[i].job.name !in l.state.jobs
    ensures var ts := BuildTree(libs, Leaves(jobs), 0).value;
            var r := Replay(libs, l, ts, clocks, 0);
            && multiset(Preorder(ts)) == multiset(jobs) && WellPlaced(ts)
            && ReplayedUnder(libs, l, ts, "", r)
  {
    var ts := BuildTree(libs, Leaves(jobs), 0).value;
    hide Validate, Leaves, Nodes, WellPlaced, BuildTree, InStep, ZoneLaw, Fit, DistinctTree, Names, Replay,
         ReplayedUnder, Preorder;
    BuiltForest(libs, jobs);
    forall n | n in Nodes(ts) ensures n.job.name !in l.state.jobs {
      assert n in multiset(jobs) && n in jobs;
    }
    forall name | name in Names(ts) ensures name !in l.state.jobs {
      InNames(ts, name);
    }
    ReplaySucceeds(libs, l, ts, clocks, 0, "");
  }

  // ---- Restoring over stored jobs ----

  /** Every job of the forest is stored with the parent that it has in the forest. */
  ghost predicate ParentsHold(jobs: JobMap, ts: seq<Tree>) {
    ts != [] ==>
      && Name(ts[0]) in jobs && jobs[Name(ts[0])].parentJob == Parent(ts[0])
      && ParentsHold(jobs, ts[0].children) && ParentsHold(jobs, ts[1..])
  }

  // Other jobs keep their parents.
  ghost predicate KeepsParents(jobs: JobMap, after: JobMap, changed: set<string>) {
    && after.Keys == jobs.Keys + changed
    && forall n | n in jobs && n !in changed :: after[n].parentJob == jobs[n].parentJob
  }

  lemma {:induction false} ParentsStay(jobs: JobMap, after: JobMap, changed: set<string>, ts: seq<Tree>)
    requires ParentsHold(jobs, ts) && KeepsParents(jobs, after, changed) && Names(ts) !! changed
    ensures ParentsHold(after, ts)
  {
    if ts != [] {
      ParentsStay(jobs, after, changed, ts[0].children);
      ParentsStay(jobs, after, changed, ts[1..]);
    }
  }

  lemma SetAnyJob(libs: Libs, l: Leader, job: Job, clock: Clock)
    requires InStep(libs, l) && ZoneLaw(libs) && Validate(libs, job).None?
    requires job.parentJob != "" ==> job.parentJob in l.state.jobs
    ensures var r := SetJobRequest(libs, l, job, clock);
            && r.reply == Done && InStep(libs, r.leader)
            && KeepsParents(l.state.jobs, r.leader.state.jobs, {job.name})
            && r.leader.state.jobs[job.name].parentJob == job.parentJob
  {
    hide SetJob, Add, Agrees, UniqueIds, ZoneLaw, Validate, Consistent, Wanted;
    ValidSetJobStaysInStep(libs, l, job, clock);
    AcceptedRedefines(libs, l.state, job, clock);
    var after := SetJob(libs, l.state, job, true, clock).state.jobs;
    forall n | n in l.state.jobs && n != job.name ensures after[n].parentJob == l.state.jobs[n].parentJob {
      assert SameDefinition(l.state.jobs[n], after[n]);
    }
  }

  // What a replay over any store leads to.
  ghost predicate ReplayedOver(libs: Libs, l: Leader, ts: seq<Tree>, r: Replayed) {
    && InStep(libs, r.leader) && r.report == Created(Preorder(ts))
    && ParentsHold(r.leader.state.jobs, ts) && KeepsParents(l.state.jobs, r.leader.state.jobs, Names(ts))
  }

  lemma {:induction false} ReplayAccepted(
      libs: Libs, l: Leader, ts: seq<Tree>, clocks: nat -> Clock, calls: nat, p: string)
    requires InStep(libs, l) && ZoneLaw(libs) && Fit(libs, ts) && DistinctTree(ts) && WellPlaced(ts) && AllUnder(ts, p)
    requires p != "" ==> p in l.state.jobs
    ensures ReplayedOver(libs, l, ts, Replay(libs, l, ts, clocks, calls))
    decreases ts
  {
    if ts == [] {
      ReplayedNothing(libs, l, ts, clocks, calls);
    } else {
      hide InStep, ZoneLaw, Validate, SetJobRequest, Replay, Fit, DistinctTree, WellPlaced, AllUnder, Names, Created,
           Preorder, ParentsHold;
      var t, rest := ts[0], ts[1..];
      var set_ := SetJobRequest(libs, l, t.node.job, clocks(calls));
      FirstOf(libs, ts, p);
      SetAnyJob(libs, l, t.node.job, clocks(calls));
      ReplayAccepted(libs, set_.leader, t.children, clocks, calls + 1, Name(t));
      var below := Replay(libs, set_.leader, t.children, clocks, calls + 1);
      ReplayAccepted(libs, below.leader, rest, clocks, below.calls, p);
      var last := Replay(libs, below.leader, rest, clocks, below.calls);
      ReplayCons(libs, l, ts, clocks, calls);
      ReportCons(ts);
      ParentsTogether(l.state.jobs, set_.leader.state.jobs, below.leader.state.jobs, last.leader.state.jobs, ts);
    }
  }

  lemma ReplayedNothing(libs: Libs, l: Leader, ts: seq<Tree>, clocks: nat -> Clock, calls: nat)
    requires InStep(libs, l) && ts == []
    ensures ReplayedOver(libs, l, ts, Replay(libs, l, ts, clocks, calls))
  {
    hide InStep;
  }

  lemma ParentsTogether(jobs: JobMap, set_: JobMap, below: JobMap, last: JobMap, ts: seq<Tree>)
    requires ts != [] && Names(ts) == {Name(ts[0])} + Names(ts[0].children) + Names(ts[1..])
    requires Name(ts[0]) !in Names(ts[0].children) && Name(ts[0]) !in Names(ts[1..])
    requires Names(ts[0].children) !! Names(ts[1..])
    requires KeepsParents(jobs, set_, {Name(ts[0])}) && set_[Name(ts[0])].parentJob == Parent(ts[0])
    requires KeepsParents(set_, below, Names(ts[0].children)) && ParentsHold(below, ts[0].children)
    requires KeepsParents(below, last, Names(ts[1..])) && ParentsHold(last, ts[1..])
    ensures ParentsHold(last, ts) && KeepsParents(jobs, last, Names(ts))
  {
    hide Names, ParentsHold, Keys.ExecKey;
    ParentsStay(below, last, Names(ts[1..]), ts[0].children);
    ParentsCons(last, ts);
  }

  lemma ParentsCons(jobs: JobMap, ts: seq<Tree>)
    requires ts != [] && Name(ts[0]) in jobs && jobs[Name(ts[0])].parentJob == Parent(ts[0])
    requires ParentsHold(jobs, ts[0].children) && ParentsHold(jobs, ts[1..])
    ensures ParentsHold(jobs, ts)
  {
  }

  // What a tree that was built out of a list with distinct names is like.
  lemma BuiltForest(libs: Libs, jobs: seq<JobNode>)
    requires DistinctNames(jobs) && BuildTree(libs, Leaves(jobs), 0).Ok?
    ensures var ts := BuildTree(libs, Leaves(jobs), 0).value;
            && multiset(Preorder(ts)) == multiset(jobs) && Nodes(ts) == multiset(jobs)
            && WellPlaced(ts) && AllUnder(ts, "")
            && DistinctTree(ts) && Fit(libs, ts)
  {
    var ts := BuildTree(libs, Leaves(jobs), 0).value;
    hide Validate, Leaves, Nodes, WellPlaced, BuildTree, Fit, DistinctTree, Names, Preorder, Grounded, Named;
    BuildTreeIff(libs, jobs);
    NodesOfLeaves(jobs);
    BuiltTreeIsSound(libs, Leaves(jobs), 0);
    PreorderIsEveryNode(ts);
    assert Nodes(ts) == multiset(jobs);
    ListIsNamed(jobs);
    DistinctForest(ts);
    forall n | n in Nodes(ts) ensures Validate(libs, n.job).None? {
      assert n in multiset(jobs) && n in jobs;
    }
    FitForest(libs, ts);
  }

  /** Restoring a backup over any store: when the tree is built, every SetJob request succeeds, the report has one line
      for each job, every job ends up under the parent it has in the tree, and no other job gets another parent. */
  lemma RestoreOverwrites(libs: Libs, l: Leader, jobs: seq<JobNode>, clocks: nat -> Clock)
    requires InStep(libs, l) && ZoneLaw(libs) && DistinctNames(jobs) && BuildTree(libs, Leaves(jobs), 0).Ok?
    ensures var ts := BuildTree(libs, Leaves(jobs), 0).value;
            multiset(Preorder(ts)) == multiset(jobs) && ReplayedOver(libs, l, ts, Replay(libs, l, ts, clocks, 0))
  {
    hide Validate, Leaves, BuildTree, InStep, ZoneLaw, Replay, ReplayedOver, DistinctTree, Fit, WellPlaced, Nodes,
         Preorder;
    BuiltForest(libs, jobs);
    ReplayAccepted(libs, l, BuildTree(libs, Leaves(jobs), 0).value, clocks, 0, "");
  }

  lemma {:induction false} RestoredAt(jobs: JobMap, ts: seq<Tree>, t: Tree)
    requires Restored(jobs, ts) && IsPart(t, ts)
    ensures Name(t) in jobs && jobs[Name(t)].parentJob == Parent(t)
    ensures jobs[Name(t)].dependentJobs == t.node.job.dependentJobs + HeadNames(t.children)
  {
    hide HeadNames;
    if t != ts[0] {
      if IsPart(t, ts[0].children) { RestoredAt(jobs, ts[0].children, t); } else { RestoredAt(jobs, ts[1..], t); }
    }
  }

  // Is the tree one of the forest, or below one?
  ghost predicate IsPart(t: Tree, ts: seq<Tree>) {
    ts != [] && (t == ts[0] || IsPart(t, ts[0].children) || IsPart(t, ts[1..]))
  }

  /** After a restore the list of a job is the list of its children in the tree exactly when the job came without
      dependents. A job that is exported together with its dependents lists every one of them twice afterwards. */
  lemma {:induction false} RestoredListIff(jobs: JobMap, ts: seq<Tree>, t: Tree)
    requires Restored(jobs, ts) && IsPart(t, ts)
    ensures Name(t) in jobs
    ensures jobs[Name(t)].dependentJobs == HeadNames(t.children) <==> t.node.job.dependentJobs == []
    ensures t.node.job.dependentJobs == HeadNames(t.children) ==>
              jobs[Name(t)].dependentJobs == HeadNames(t.children) + HeadNames(t.children)
  {
    RestoredAt(jobs, ts, t);
    var own, children := t.node.job.dependentJobs, HeadNames(t.children);
    assert |own + children| == |own| + |children|;
    assert own == [] ==> own + children == children;
  }

  /** A leader with nothing stored and nothing scheduled is in step, so that a restore can begin with it. */
  lemma EmptyLeaderIsInStep(libs: Libs, nextId: nat)
    ensures InStep(libs, Leader(EMPTY_STATE, [], nextId, []))
  {
    NoEntries(nextId);
    forall n ensures Schedules([], n) == [] { NothingScheduled(n); }
  }

}

/** The restore endpoint over job objects. */
module RestoreAgent {
  import opened Wrappers
  import opened Types
  import opened JobTree
  import opened Rpc
  import opened Handlers
  import opened Restore
  import FlatStore

  // The forest's objects are known, so that none of them is the store or the scheduler.
  ghost predicate Within(ts: seq<Tree>, all: set<object>) {
    forall n | n in Nodes(ts) :: n in all
  }

  lemma WithinEntry(ts: seq<Tree>, i: nat, all: set<object>)
    requires Within(ts, all) && i < |ts|
    ensures Within(ts[i].children, all)
  {
    EntryIsPart(ts, i);
    NodesOne(ts[i]);
  }

  // A replay that goes on after earlier lines of the report.
  function Resumed(lines: seq<string>, r: Replayed): Replayed {
    r.(report := lines + r.report)
  }

  lemma ReplayNothing(libs: Libs, l: Leader, clocks: nat -> Clock, calls: nat)
    ensures Replay(libs, l, [], clocks, calls) == Replayed(l, [], calls)
  {
  }

  /** The replay of the entries from `i` on: entry `i` with its children, and then the others. */
  lemma ReplayNext(libs: Libs, l: Leader, ts: seq<Tree>, i: nat, clocks: nat -> Clock, calls: nat, lines: seq<string>)
    requires i < |ts|
    ensures var r := SetJobRequest(libs, l, ts[i].node.job, clocks(calls));
            var below := Replay(libs, r.leader, ts[i].children, clocks, calls + 1);
            Resumed(lines, Replay(libs, l, ts[i..], clocks, calls)) ==
              if r.reply != Done then
                Resumed(lines + [NOT_CREATED + Name(ts[i])], Replay(libs, r.leader, ts[i + 1..], clocks, calls + 1))
              else
                Resumed(lines + [CREATED + Name(ts[i])] + below.report,
                        Replay(libs, below.leader, ts[i + 1..], clocks, below.calls))
  {
    hide SetJobRequest;
    assert ts[i..][0] == ts[i] && ts[i..][1..] == ts[i + 1..];
    var r := SetJobRequest(libs, l, ts[i].node.job, clocks(calls));
    var below := Replay(libs, r.leader, ts[i].children, clocks, calls + 1);
    var rest := if r.reply != Done then Replay(libs, r.leader, ts[i + 1..], clocks, calls + 1)
                else Replay(libs, below.leader, ts[i + 1..], clocks, below.calls);
    assert lines + ([NOT_CREATED + Name(ts[i])] + rest.report) == lines + [NOT_CREATED + Name(ts[i])] + rest.report;
    assert lines + ([CREATED + Name(ts[i])] + below.report + rest.report) ==
           lines + [CREATED + Name(ts[i])] + below.report + rest.report;
  }

  class Agent {
    const server: GrpcServer

    constructor (server: GrpcServer)
      ensures this.server == server
    {
      this.server := server;
    }

    /** Sets the jobs of a list and, below each that succeeds, its children. */
    method RecursiveSetJob(
        jobs: seq<JobNode>, clocks: nat -> Clock, calls: nat, ghost ts: seq<Tree>, ghost all: set<object>)
      returns (result: seq<string>, made: nat)
      requires server.Valid() && Mirrors(jobs, ts) && Within(ts, all) && server.store !in all && server.sched !in all
      modifies server.store, server.sched
      ensures server.Valid()
      ensures Replayed(server.View(), result, made) == Replay(server.store.libs, old(server.View()), ts, clocks, calls)
      decreases ts
    {
      hide SetJobRequest, Nodes, Mirrors, Replay, GrpcServer.Valid, GrpcServer.View;
      result, made := [], calls;
      MirrorsLength(jobs, ts);
      assert ts[0..] == ts;
      for i := 0 to |jobs|
        invariant server.Valid() && |jobs| == |ts| && Mirrors(jobs, ts)
        invariant Replay(server.store.libs, old(server.View()), ts, clocks, calls) ==
                  Resumed(result, Replay(server.store.libs, server.View(), ts[i..], clocks, made))
      {
        MirrorsEntry(jobs, ts, i);
        MirrorsLength(jobs[i].childJobs, ts[i].children);
        WithinEntry(ts, i, all);
        ReplayNext(server.store.libs, server.View(), ts, i, clocks, made, result);
        var reply := server.SetJob(jobs[i].job, clocks(made));
        assert Mirrors(jobs, ts);
        assert Mirrors(jobs[i].childJobs, ts[i].children);
        made := made + 1;
        if reply != Done {
          result := result + [NOT_CREATED + jobs[i].job.name];
          continue;
        }
        result := result + [CREATED + jobs[i].job.name];
        ReplayNothing(server.store.libs, server.View(), clocks, made);
        if |jobs[i].childJobs| > 0 {
          var recursiveResult, m := RecursiveSetJob(jobs[i].childJobs, clocks, made, ts[i].children, all);
          result := result + recursiveResult;
          made := m;
        }
      }
      ReplayNothing(server.store.libs, server.View(), clocks, made);
    }
  }
}
