/** Which nodes run a job: the tags of the job, the nodes that match them, and the selection among those. */
module Targets {
  import opened Wrappers
  import opened Types
  import opened Strings

  const REGION: string := "region"

  datatype Node = Node(name: string, alive: bool, tags: map<string, string>)

  // ---- Tags and their cardinality ----

  /** The cardinality that a tag's value asks for, if it asks for one. A malformed one counts as zero. */
  function TagCardinality(value: string): Option<int> {
    var parts := Split(value, ':');
    if |parts| != 2 then None
    else
      match Atoi(parts[1])
      case Some(n) => Some(n)
      case None => Some(0)
  }

  function BareTags(tags: map<string, string>): map<string, string> {
    map k | k in tags :: Split(tags[k], ':')[0]
  }

  /** The least cardinality that a tag asks for, or the largest integer. */
  ghost predicate IsCardinality(tags: map<string, string>, c: int) {
    && (c == MAX_INT64 || exists k :: k in tags && TagCardinality(tags[k]) == Some(c))
    && c <= MAX_INT64
    && forall k | k in tags && TagCardinality(tags[k]).Some? :: c <= TagCardinality(tags[k]).value
  }

  /** What a tag's value asks for: nothing without a colon or with more than one, and else the integer behind the colon,
      where anything but a 64-bit integer counts as zero. What is in front of the first colon is to be matched. */
  lemma TagAsks(bare: string, count: string, rest: string)
    requires ':' !in bare && ':' !in count
    ensures TagCardinality(bare) == None && Split(bare, ':')[0] == bare
    ensures TagCardinality(bare + ":" + count) == (if Atoi(count).Some? then Atoi(count) else Some(0))
    ensures Split(bare + ":" + count, ':')[0] == bare
    ensures TagCardinality(bare + ":" + (count + ":" + rest)) == None
    ensures Split(bare + ":" + (count + ":" + rest), ':')[0] == bare
  {
    hide Split, Atoi;
    SplitOne(bare, ':');
    SplitOne(count, ':');
    SplitCons(bare, ':', count);
    SplitCons(count, ':', rest);
    SplitCons(bare, ':', count + ":" + rest);
  }

  /** There is one such number, so that the order in which the tags are visited does not matter. */
  lemma CardinalityUnique(tags: map<string, string>, c: int, d: int)
    requires IsCardinality(tags, c) && IsCardinality(tags, d)
    ensures c == d
  {
    hide TagCardinality;
  }

  /** Visits the tags in any order. */
  method CleanTags(tags: map<string, string>) returns (cleanTags: map<string, string>, cardinality: int)
    ensures cleanTags == BareTags(tags) && IsCardinality(tags, cardinality)
  {
    hide Split, Atoi, IsCardinality, BareTags;
    cardinality := MAX_INT64;
    cleanTags := map[];
    var left := tags.Keys;
    ghost var seen: map<string, string> := map[];
    NoTags();
    while left != {}
      invariant left <= tags.Keys && seen.Keys == tags.Keys - left && forall k | k in seen :: seen[k] == tags[k]
      invariant cleanTags == BareTags(seen) && IsCardinality(seen, cardinality)
      decreases |left|
    {
      var k :| k in left;
      left := left - {k};
      var vparts := Split(tags[k], ':');
      cleanTags := cleanTags[k := vparts[0]];
      ghost var before := cardinality;
      if |vparts| == 2 {
        var parsed := Atoi(vparts[1]);
        var tagCard := if parsed.Some? then parsed.value else 0;
        if tagCard < cardinality {
          cardinality := tagCard;
        }
      }
      LeastOfMore(seen, k, tags[k], before, cardinality);
      OneMoreTag(seen, k, tags[k]);
      seen := seen[k := tags[k]];
    }
    assert seen == tags;
  }

  lemma NoTags()
    ensures BareTags(map[]) == map[] && IsCardinality(map[], MAX_INT64)
  {
  }

  lemma OneMoreTag(seen: map<string, string>, k: string, value: string)
    ensures BareTags(seen[k := value]) == BareTags(seen)[k := Split(value, ':')[0]]
  {
    hide Split;
  }

  lemma LeastOfMore(seen: map<string, string>, k: string, value: string, before: int, c: int)
    requires IsCardinality(seen, before) && k !in seen
    requires c == match TagCardinality(value)
                  case Some(n) => if n < before then n else before
                  case None => before
    ensures IsCardinality(seen[k := value], c)
  {
    hide TagCardinality;
    var more := seen[k := value];
    if c == before {
      if before != MAX_INT64 {
        var n :| n in seen && TagCardinality(seen[n]) == Some(before);
        assert n in more && TagCardinality(more[n]) == Some(c);
      }
    } else {
      assert k in more && TagCardinality(more[k]) == Some(c);
    }
  }

  // ---- Nodes that qualify ----

  predicate Matches(node: Node, tags: map<string, string>) {
    forall k | k in tags :: k in node.tags && node.tags[k] == tags[k]
  }

  method NodeMatchesTags(node: Node, tags: map<string, string>) returns (matches: bool)
    ensures matches == Matches(node, tags)
  {
    var left := tags.Keys;
    while left != {}
      invariant left <= tags.Keys && forall k | k in tags && k !in left :: k in node.tags && node.tags[k] == tags[k]
      decreases |left|
    {
      var k :| k in left;
      left := left - {k};
      if k !in node.tags {
        return false;
      }
      if node.tags[k] != tags[k] {
        return false;
      }
    }
    return true;
  }

  function TagOf(node: Node, key: string): string {
    if key in node.tags then node.tags[key] else ""
  }

  predicate Qualifies(node: Node, region: string, bareTags: map<string, string>) {
    node.alive && TagOf(node, REGION) == region && Matches(node, bareTags)
  }

  /** The elements that the filter accepts, in order. */
  function Kept(nodes: seq<Node>, accepts: Node -> bool): seq<Node> {
    if nodes == [] then []
    else if accepts(nodes[0]) then [nodes[0]] + Kept(nodes[1..], accepts)
    else Kept(nodes[1..], accepts)
  }

  lemma {:induction false} KeptByEqual(nodes: seq<Node>, f: Node -> bool, g: Node -> bool)
    requires forall n | n in nodes :: f(n) == g(n)
    ensures Kept(nodes, f) == Kept(nodes, g)
  {
    if nodes != [] {
      assert nodes[0] in nodes && forall n | n in nodes[1..] :: n in nodes;
      KeptByEqual(nodes[1..], f, g);
    }
  }

  lemma {:induction false} KeptAreAccepted(nodes: seq<Node>, accepts: Node -> bool, n: Node)
    ensures multiset(Kept(nodes, accepts))[n] == if accepts(n) then multiset(nodes)[n] else 0
  {
    if nodes != [] {
      assert nodes == [nodes[0]] + nodes[1..];
      KeptAreAccepted(nodes[1..], accepts, n);
    }
  }

  lemma KeptCons(nodes: seq<Node>, i: nat, accepts: Node -> bool)
    requires i < |nodes|
    ensures Kept(nodes[i..], accepts) == (if accepts(nodes[i]) then [nodes[i]] else []) + Kept(nodes[i + 1..], accepts)
  {
    assert nodes[i..][0] == nodes[i] && nodes[i..][1..] == nodes[i + 1..];
  }

  // The elements when element `i` is refused: the last one takes its place.
  function Overwritten(s: seq<Node>, i: nat): (t: seq<Node>)
    requires i < |s|
    ensures |t| == |s| - 1
  {
    s[i := s[|s| - 1]][..|s| - 1]
  }

  lemma OverwriteKeepsOthers(s: seq<Node>, i: nat)
    requires i < |s|
    ensures i <= |Overwritten(s, i)|
    ensures Overwritten(s, i)[..i] == s[..i] && multiset(Overwritten(s, i)[i..]) == multiset(s[i + 1..])
  {
    var t, rest := Overwritten(s, i), s[i + 1..];
    if rest == [] {
      assert t[i..] == [];
    } else {
      var front, last := rest[..|rest| - 1], rest[|rest| - 1];
      assert rest == front + [last];
      assert t[i..] == [last] + front;
    }
  }

  /** What is left of `was` when the elements from `i` on have been examined: the others, and the accepted ones. */
  ghost predicate Filtered(was: seq<Node>, s: seq<Node>, i: nat, accepts: Node -> bool) {
    && i <= |s| <= |was| && s[..i] == was[..i]
    && multiset(s[i..]) == multiset(Kept(was[i..], accepts))
  }

  lemma FilterBegins(was: seq<Node>, accepts: Node -> bool)
    ensures Filtered(was, was, |was|, accepts)
  {
    assert was[|was|..] == [];
  }

  lemma FilterEnds(was: seq<Node>, s: seq<Node>, accepts: Node -> bool)
    requires Filtered(was, s, 0, accepts)
    ensures multiset(s) == multiset(Kept(was, accepts))
  {
    assert was[0..] == was && s[0..] == s;
  }

  lemma ShorterFront(a: seq<Node>, b: seq<Node>, i: nat)
    requires i < |a| && i < |b| && a[..i + 1] == b[..i + 1]
    ensures a[i] == b[i] && a[..i] == b[..i]
  {
    assert a[i] == a[..i + 1][i] && b[i] == b[..i + 1][i];
    assert a[..i] == a[..i + 1][..i] && b[..i] == b[..i + 1][..i];
  }

  lemma FilterKeeps(was: seq<Node>, s: seq<Node>, i: nat, accepts: Node -> bool)
    requires Filtered(was, s, i + 1, accepts) && accepts(s[i])
    ensures Filtered(was, s, i, accepts)
  {
    hide Kept;
    ShorterFront(s, was, i);
    KeptCons(was, i, accepts);
    assert s[i..] == [s[i]] + s[i + 1..];
  }

  lemma FilterDrops(was: seq<Node>, s: seq<Node>, i: nat, accepts: Node -> bool)
    requires Filtered(was, s, i + 1, accepts) && !accepts(s[i])
    ensures Filtered(was, Overwritten(s, i), i, accepts)
  {
    hide Kept, Overwritten;
    ShorterFront(s, was, i);
    KeptCons(was, i, accepts);
    OverwriteKeepsOthers(s, i);
  }

  lemma FilterBound(was: seq<Node>, s: seq<Node>, i: nat, accepts: Node -> bool)
    requires Filtered(was, s, i, accepts)
    ensures i <= |s|
  {
  }

  method Overwrite(arr: array<Node>, i: nat, len: nat)
    requires i < len <= arr.Length
    modifies arr
    ensures arr[..len - 1] == Overwritten(old(arr[..len]), i)
  {
    arr[i] := arr[len - 1];
  }

  /** Keeps the accepted elements in the front of the array, in place and in another order: from the back on, an element
      that is refused is overwritten with the last one that is kept. */
  method FilterArray(arr: array<Node>, accepts: Node -> bool) returns (len: nat)
    modifies arr
    ensures len <= arr.Length && multiset(arr[..len]) == multiset(Kept(old(arr[..]), accepts))
  {
    hide Kept, Filtered, Overwritten;
    ghost var was := arr[..];
    len := arr.Length;
    var i := arr.Length;
    FilterBegins(was, accepts);
    assert arr[..len] == was;
    while i > 0
      invariant 0 <= i && len <= arr.Length && Filtered(was, arr[..len], i, accepts)
    {
      FilterBound(was, arr[..len], i, accepts);
      i := i - 1;
      if !accepts(arr[i]) {
        FilterDrops(was, arr[..len], i, accepts);
        Overwrite(arr, i, len);
        len := len - 1;
      } else {
        FilterKeeps(was, arr[..len], i, accepts);
      }
    }
    FilterEnds(was, arr[..len], accepts);
  }

  // ---- Selection ----

  // The number of nodes that are selected among `n`.
  function SelectedCount(n: nat, cardinality: int): nat {
    if n <= cardinality then n else if cardinality > 0 then cardinality else 0
  }

  /** A function that picks an index; it may pick another one at each call. */
  ghost predicate Selector(selectFunc: (nat, seq<Node>) -> int) {
    forall call: nat, nodes: seq<Node> {:trigger selectFunc(call, nodes)} :: nodes != [] ==>
        0 <= selectFunc(call, nodes) < |nodes|
  }

  // Two elements change places.
  function Swapped(s: seq<Node>, i: nat, j: nat): (t: seq<Node>)
    requires i < |s| && j < |s|
    ensures |t| == |s|
  {
    s[i := s[j]][j := s[i]]
  }

  /** The first `len` elements are in another order, and the others in their places. */
  ghost predicate Shuffled(was: seq<Node>, s: seq<Node>, len: nat) {
    |s| == |was| && len <= |s| && multiset(s[..len]) == multiset(was[..len]) && s[len..] == was[len..]
  }

  lemma SwapShuffles(was: seq<Node>, s: seq<Node>, len: nat, i: nat, j: nat)
    requires Shuffled(was, s, len) && i < len && j < len
    ensures i < |s| && j < |s| && Shuffled(was, Swapped(s, i, j), len)
  {
    assert Swapped(s, i, j)[..len] == Swapped(s[..len], i, j);
    SwapKeeps(s[..len], i, j);
    assert Swapped(s, i, j)[len..] == s[len..];
  }

  lemma SwapKeeps(s: seq<Node>, i: nat, j: nat)
    requires i < |s| && j < |s|
    ensures multiset(Swapped(s, i, j)) == multiset(s)
  {
  }

  lemma NotYetShuffled(s: seq<Node>, len: nat)
    requires len <= |s|
    ensures Shuffled(s, s, len)
  {
  }

  method Swap(arr: array<Node>, i: nat, j: nat)
    requires i < arr.Length && j < arr.Length
    modifies arr
    ensures arr[..] == Swapped(old(arr[..]), i, j)
  {
    arr[i], arr[j] := arr[j], arr[i];
  }

  /** From the back of the first `len` elements on, there are the ones that the selector chose, call after call: each
      among the elements that the calls before had left. */
  ghost predicate Picked(
      was: seq<Node>, s: seq<Node>, len: nat, offered: seq<seq<Node>>, selectFunc: (nat, seq<Node>) -> int)
    requires Selector(selectFunc) && |was| == |s| && len <= |s|
  {
    && |offered| <= len
    && forall k | 0 <= k < |offered| ::
         && |offered[k]| == len - k
         && s[len - 1 - k] == offered[k][selectFunc(k, offered[k])]
         && multiset(offered[k]) + multiset(s[len - k..len]) == multiset(was[..len])
  }

  lemma PickedNext(
      was: seq<Node>, s: seq<Node>, len: nat, offered: seq<seq<Node>>, selectFunc: (nat, seq<Node>) -> int)
    requires Selector(selectFunc) && Shuffled(was, s, len) && Picked(was, s, len, offered, selectFunc)
    requires |offered| < len
    ensures var n := len - |offered|;
            var i := selectFunc(|offered|, s[..n]);
            && i < n && Shuffled(was, Swapped(s, n - 1, i), len)
            && Picked(was, Swapped(s, n - 1, i), len, offered + [s[..n]], selectFunc)
  {
    var n := len - |offered|;
    assert s[..n] != [];
    var i := selectFunc(|offered|, s[..n]);
    SwapShuffles(was, s, len, n - 1, i);
    var t, more := Swapped(s, n - 1, i), offered + [s[..n]];
    ShuffledFront(was, s, len);
    assert t[n..] == s[n..] && t[n - 1] == s[..n][i];
    hide Shuffled, Swapped;
    PickedKept(was, s, t, len, offered, selectFunc);
    PickedMore(was, t, len, offered, s[..n], selectFunc) by { assert s[..len] == s[..n] + s[n..len]; }
  }

  lemma SliceBehind(s: seq<Node>, n: nat, from_: nat, to: nat)
    requires n <= from_ <= to <= |s|
    ensures s[from_..to] == s[n..][from_ - n..to - n]
  {
  }

  // What was picked stays picked when the elements behind it do not change.
  lemma PickedKept(
      was: seq<Node>, s: seq<Node>, t: seq<Node>, len: nat, offered: seq<seq<Node>>,
      selectFunc: (nat, seq<Node>) -> int)
    requires Selector(selectFunc) && |was| == |s| == |t| && len <= |s| && Picked(was, s, len, offered, selectFunc)
    requires t[len - |offered|..] == s[len - |offered|..]
    ensures Picked(was, t, len, offered, selectFunc)
  {
    var n := len - |offered|;
    forall k | 0 <= k < |offered|
      ensures && |offered[k]| == len - k && t[len - 1 - k] == offered[k][selectFunc(k, offered[k])]
              && multiset(offered[k]) + multiset(t[len - k..len]) == multiset(was[..len])
    {
      assert t[len - 1 - k] == t[n..][|offered| - 1 - k] == s[len - 1 - k];
      SliceBehind(s, n, len - k, len);
      SliceBehind(t, n, len - k, len);
    }
  }

  lemma PickedMore(
      was: seq<Node>, t: seq<Node>, len: nat, offered: seq<seq<Node>>, last: seq<Node>,
      selectFunc: (nat, seq<Node>) -> int)
    requires Selector(selectFunc) && |was| == |t| && len <= |t| && Picked(was, t, len, offered, selectFunc)
    requires |offered| < len && |last| == len - |offered|
    requires t[len - 1 - |offered|] == last[selectFunc(|offered|, last)]
    requires multiset(last) + multiset(t[len - |offered|..len]) == multiset(was[..len])
    ensures Picked(was, t, len, offered + [last], selectFunc)
  {
  }

  /** Selects nodes of the first `len` of an array by swapping them to the end, and returns where they begin, and what
      each call of the selector chose from. */
  method SelectNodes(
      arr: array<Node>, len: nat, cardinality: int, selectFunc: (nat, seq<Node>) -> int)
    returns (first: nat, ghost offered: seq<seq<Node>>)
    requires len <= arr.Length && Selector(selectFunc)
    modifies arr
    ensures first <= len && len - first == SelectedCount(len, cardinality)
    ensures Shuffled(old(arr[..]), arr[..], len) && Picked(old(arr[..]), arr[..], len, offered, selectFunc)
    ensures if len <= cardinality then offered == [] && arr[..] == old(arr[..]) else |offered| == len - first
  {
    hide Swapped, Shuffled, Picked;
    ghost var was := arr[..];
    NotYetShuffled(was, len);
    NothingPicked(was, len, selectFunc);
    offered := [];
    var numNodes := len;
    if numNodes <= cardinality {
      return 0, offered;
    }
    var left := cardinality;
    while left > 0
      invariant left <= numNodes <= len && (cardinality > 0 ==> left >= 0 && len - numNodes == cardinality - left)
      invariant cardinality <= 0 ==> left == cardinality && numNodes == len
      invariant Shuffled(was, arr[..], len) && Picked(was, arr[..], len, offered, selectFunc)
      invariant |offered| == len - numNodes
      decreases left
    {
      var chosenIndex := selectFunc(len - numNodes, arr[..numNodes]);
      assert arr[..numNodes] == arr[..][..numNodes];
      PickedNext(was, arr[..], len, offered, selectFunc);
      offered := offered + [arr[..numNodes]];
      // The chosen node changes places with the last one that is left.
      Swap(arr, numNodes - 1, chosenIndex);
      numNodes := numNodes - 1;
      left := left - 1;
    }
    return numNodes, offered;
  }

  lemma NothingPicked(s: seq<Node>, len: nat, selectFunc: (nat, seq<Node>) -> int)
    requires Selector(selectFunc) && len <= |s|
    ensures Picked(s, s, len, [], selectFunc)
  {
  }

  // The nodes that a job is meant for: they are alive, in the region, and have each tag with what its value names.
  ghost function Meant(tags: map<string, string>, region: string): Node -> bool {
    (n: Node) =>
      && n.alive && (if "region" in n.tags then n.tags["region"] else "") == region
      && forall k | k in tags :: k in n.tags && n.tags[k] == Split(tags[k], ':')[0]
  }

  /** The targets are what the selector chose: the last one first, each among the nodes that were left. */
  ghost predicate Chosen(
      qualifying: seq<Node>, targets: seq<Node>, offered: seq<seq<Node>>, selectFunc: (nat, seq<Node>) -> int)
    requires Selector(selectFunc)
  {
    && |offered| == |targets| <= |qualifying|
    && forall k | 0 <= k < |offered| ::
         && |offered[k]| == |qualifying| - k
         && targets[|targets| - 1 - k] == offered[k][selectFunc(k, offered[k])]
         && multiset(offered[k]) + multiset(targets[|targets| - k..]) == multiset(qualifying)
  }

  /** The nodes that run a job: as many of the qualifying members as its tags ask for, each at most as often as it is a
      member. When there are more than that, they are those that the selector chooses, one call after the other, each
      among the qualifying members that were not chosen before. */
  method GetTargetNodes(
      members: seq<Node>, tags: map<string, string>, region: string, selectFunc: (nat, seq<Node>) -> int)
    returns (targets: seq<Node>, cardinality: int, ghost offered: seq<seq<Node>>)
    requires Selector(selectFunc)
    ensures IsCardinality(tags, cardinality)
    ensures var qualifying := Kept(members, Meant(tags, region));
            && |targets| == (if |qualifying| <= cardinality then |qualifying|
                             else if cardinality > 0 then cardinality else 0)
            && multiset(targets) <= multiset(qualifying)
            && (|qualifying| > cardinality ==> Chosen(qualifying, targets, offered, selectFunc))
    ensures forall i | 0 <= i < |targets| :: targets[i] in members && Meant(tags, region)(targets[i])
  {
    hide Kept, Shuffled, Picked, Chosen, IsCardinality, BareTags, Qualifies, Meant;
    var bareTags, c := CleanTags(tags);
    cardinality := c;
    var nodes := new Node[|members|](i requires 0 <= i < |members| => members[i]);
    assert nodes[..] == members;
    var accepts := (n: Node) => Qualifies(n, region, bareTags);
    var len := FilterArray(nodes, accepts);
    ghost var was := nodes[..];
    assert was[..len] == nodes[..len];
    var first;
    first, offered := SelectNodes(nodes, len, cardinality, selectFunc);
    targets := nodes[first..len];
    assert targets == nodes[..][first..len];
    TargetsAre(members, accepts, tags, region, was, nodes[..], len, first, offered, cardinality, selectFunc);
  }

  lemma TargetsAre(
      members: seq<Node>, accepts: Node -> bool, tags: map<string, string>, region: string,
      was: seq<Node>, s: seq<Node>, len: nat, first: nat, offered: seq<seq<Node>>, cardinality: int,
      selectFunc: (nat, seq<Node>) -> int)
    requires Selector(selectFunc) && forall n: Node :: accepts(n) == Qualifies(n, region, BareTags(tags))
    requires Shuffled(was, s, len) && Picked(was, s, len, offered, selectFunc)
    requires multiset(was[..len]) == multiset(Kept(members, accepts))
    requires first <= len && len - first == SelectedCount(len, cardinality)
    requires len > cardinality ==> |offered| == len - first
    ensures var targets, qualifying := s[first..len], Kept(members, Meant(tags, region));
            && |targets| == (if |qualifying| <= cardinality then |qualifying|
                             else if cardinality > 0 then cardinality else 0)
            && multiset(targets) <= multiset(qualifying)
            && (|qualifying| > cardinality ==> Chosen(qualifying, targets, offered, selectFunc))
            && forall i | 0 <= i < |targets| :: targets[i] in members && Meant(tags, region)(targets[i])
  {
    hide Kept, Shuffled, Picked, Chosen, BareTags, Qualifies, Meant;
    forall n: Node ensures accepts(n) == Meant(tags, region)(n) {
      QualifiesMeans(n, region, tags);
    }
    KeptByEqual(members, accepts, Meant(tags, region));
    ShuffledFront(was, s, len);
    if len > cardinality { PickedTargets(was, s, len, first, offered, selectFunc, Kept(members, accepts)); }
    assert s[..len][first..] == s[first..len];
    SelectedFromKept(members, accepts, s[..len], first);
    assert forall i | 0 <= i < |s[first..len]| :: s[first..len][i] == s[..len][first + i];
  }

  lemma PickedTargets(
      was: seq<Node>, s: seq<Node>, len: nat, first: nat, offered: seq<seq<Node>>,
      selectFunc: (nat, seq<Node>) -> int, qualifying: seq<Node>)
    requires Selector(selectFunc) && |was| == |s| && first <= len <= |s| && |offered| == len - first
    requires Picked(was, s, len, offered, selectFunc) && multiset(was[..len]) == multiset(qualifying)
    ensures Chosen(qualifying, s[first..len], offered, selectFunc)
  {
    assert |multiset(was[..len])| == |multiset(qualifying)|;
    var targets := s[first..len];
    forall k | 0 <= k < |offered|
      ensures && |offered[k]| == len - k && targets[|targets| - 1 - k] == offered[k][selectFunc(k, offered[k])]
              && multiset(offered[k]) + multiset(targets[|targets| - k..]) == multiset(was[..len])
    {
      assert targets[|targets| - k..] == s[len - k..len];
    }
  }

  lemma QualifiesMeans(node: Node, region: string, tags: map<string, string>)
    ensures Qualifies(node, region, BareTags(tags)) <==> Meant(tags, region)(node)
  {
    hide Split;
    var bare := BareTags(tags);
    assert forall k | k in tags :: k in bare && bare[k] == Split(tags[k], ':')[0];
  }

  lemma ShuffledFront(was: seq<Node>, s: seq<Node>, len: nat)
    requires Shuffled(was, s, len)
    ensures |s| == |was| && len <= |s| && multiset(s[..len]) == multiset(was[..len])
  {
  }

  // The elements behind some position, of those that were kept in any order.
  lemma SelectedFromKept(members: seq<Node>, accepts: Node -> bool, kept: seq<Node>, first: nat)
    requires multiset(kept) == multiset(Kept(members, accepts)) && first <= |kept|
    ensures |kept| == |Kept(members, accepts)| && multiset(kept[first..]) <= multiset(Kept(members, accepts))
    ensures forall i | first <= i < |kept| :: accepts(kept[i]) && kept[i] in members
  {
    hide Kept;
    assert |kept| == |multiset(kept)| == |Kept(members, accepts)|;
    assert kept == kept[..first] + kept[first..];
    forall i | first <= i < |kept| ensures accepts(kept[i]) && kept[i] in members {
      assert kept[i] in multiset(kept) && kept[i] in multiset(Kept(members, accepts));
      KeptAreAccepted(members, accepts, kept[i]);
      assert kept[i] in multiset(members);
    }
  }
}
