/** The flat string keyspace of the store: how keys are built, and which keys a prefix scan selects. */
module Keys {
  import opened Wrappers
  import opened Types

  const EXECUTIONS: string := "executions:"
  const JOBS: string := "jobs:"
  const STATS: string := "stats:"

  predicate HasPrefix(s: string, prefix: string) {
    prefix <= s
  }

  function Digit(d: nat): char
    requires d < 10
  {
    '0' + d as char
  }

  // Decimal digits without leading zeros.
  function Digits(n: nat): (s: string)
    ensures s != [] && forall i | 0 <= i < |s| :: '0' <= s[i] <= '9'
  {
    if n < 10 then [Digit(n)] else Digits(n / 10) + [Digit(n % 10)]
  }

  // fmt's %d.
  function Itoa(n: int): string {
    if n < 0 then "-" + Digits(-n) else Digits(n)
  }

  // time.Time.UnixNano, which is taken modulo 2^64.
  function UnixNano(t: Time): int {
    Wrap64(t)
  }

  /** The start time in a key is a 64-bit integer that differs from the time by a multiple of 2^64, and so two times
      look alike exactly when they do so from each other. */
  lemma UnixNanoWraps(t: Time, u: Time)
    ensures -MAX_INT64 - 1 <= UnixNano(t) <= MAX_INT64 && (UnixNano(t) - t) % 0x1_0000_0000_0000_0000 == 0
    ensures UnixNano(t) == UnixNano(u) <==> (t - u) % 0x1_0000_0000_0000_0000 == 0
  {
  }

  // The name of an execution within its job.
  function Key(e: Execution): string {
    Itoa(UnixNano(e.startedAt)) + "-" + e.nodeName
  }

  function JobKey(name: string): string {
    JOBS + name
  }

  function StatKey(day: string): string {
    STATS + day
  }

  // The prefix of the scan that lists the executions of a job.
  function ListPrefix(jobName: string): string {
    EXECUTIONS + (jobName + ":")
  }

  // The prefix of the scan that deletes the executions of a job: it has no closing colon.
  function DeletePrefix(jobName: string): string {
    EXECUTIONS + jobName
  }

  function ExecKey(e: Execution): string {
    EXECUTIONS + (e.jobName + ":" + Key(e))
  }

  // A trailing colon is dropped.
  function TrimDirectoryKey(key: string): string {
    if key != [] && key[|key| - 1] == ':' then key[..|key| - 1] else key
  }

  // Does a listing under `prefix` contain the key? The prefix itself, as a directory, is left out.
  predicate Lists(prefix: string, key: string) {
    HasPrefix(key, prefix) && TrimDirectoryKey(key) != prefix
  }

  predicate NoColon(s: string) {
    ':' !in s
  }

  lemma SlugHasNoColon(libs: Libs, s: string)
    requires IsSlug(libs, s)
    ensures NoColon(s)
  {
    assert forall i | 0 <= i < |s| :: IsSlugChar(libs, s[i]) && s[i] != ':';
  }

  // The first occurrence of a separator splits a string in one way only.
  lemma SplitUnique(c: char, a: string, x: string, b: string, y: string)
    requires c !in a && c !in b
    requires a + [c] + x == b + [c] + y
    ensures a == b && x == y
  {
    var s, t := a + [c] + x, b + [c] + y;
    assert s[|a|] == c && t[|b|] == c;
    assert a == s[..|a|] && b == t[..|b|];
    assert x == s[|a| + 1..] && y == t[|b| + 1..];
  }

  lemma {:induction false} DigitsInjective(m: nat, n: nat)
    requires Digits(m) == Digits(n)
    ensures m == n
  {
    var s := Digits(m);
    assert m >= 10 ==> |Digits(m)| == |Digits(m / 10)| + 1 >= 2;
    assert n >= 10 ==> |Digits(n)| == |Digits(n / 10)| + 1 >= 2;
    if m >= 10 {
      assert Digits(m / 10) == s[..|s| - 1] == Digits(n / 10);
      DigitsInjective(m / 10, n / 10);
      assert s[|s| - 1] == Digit(m % 10) == Digit(n % 10);
    }
  }

  lemma CommonPrefix(p: string, a: string, b: string)
    ensures p + a <= p + b <==> a <= b
    ensures p + a == p + b <==> a == b
  {
    assert a == (p + a)[|p|..] && b == (p + b)[|p|..];
    if p + a <= p + b {
      assert p + a == (p + b)[..|p + a|];
    }
  }

  lemma KeyInjective(d: Execution, e: Execution)
    requires Key(d) == Key(e)
    ensures UnixNano(d.startedAt) == UnixNano(e.startedAt) && d.nodeName == e.nodeName
  {
    var m, n := UnixNano(d.startedAt), UnixNano(e.startedAt);
    assert Key(d)[0] == Itoa(m)[0] && Key(e)[0] == Itoa(n)[0];
    assert (m < 0) == (n < 0);
    var a, b := Digits(if m < 0 then -m else m), Digits(if n < 0 then -n else n);
    if m < 0 {
      assert Key(d)[1..] == a + "-" + d.nodeName && Key(e)[1..] == b + "-" + e.nodeName;
    }
    SplitUnique('-', a, d.nodeName, b, e.nodeName);
    DigitsInjective(if m < 0 then -m else m, if n < 0 then -n else n);
  }

  /** For job names without a colon, a key determines job, start time and node. */
  lemma ExecKeyInjective(d: Execution, e: Execution)
    requires NoColon(d.jobName) && NoColon(e.jobName)
    ensures ExecKey(d) == ExecKey(e) <==>
            d.jobName == e.jobName && UnixNano(d.startedAt) == UnixNano(e.startedAt) && d.nodeName == e.nodeName
  {
    CommonPrefix(EXECUTIONS, d.jobName + ":" + Key(d), e.jobName + ":" + Key(e));
    if ExecKey(d) == ExecKey(e) {
      SplitUnique(':', d.jobName, Key(d), e.jobName, Key(e));
      KeyInjective(d, e);
    }
  }

  lemma Reassociate(a: string, b: string, c: string, d: string, e: string)
    ensures (a + b + c) + d + e == a + b + (c + d + e)
  {
  }

  // The same execution, as far as its key can tell.
  predicate SameIdentity(d: Execution, e: Execution) {
    d.jobName == e.jobName && UnixNano(d.startedAt) == UnixNano(e.startedAt) && d.nodeName == e.nodeName
  }

  /** The job of `d` is named like the job of `e` with a start time and a part of a node's name behind it, and the rest
      of the name of the node of `e`, behind a colon, is the key of `d`. */
  predicate Clash(d: Execution, e: Execution, node: string) {
    && d.jobName == e.jobName + ":" + (Itoa(UnixNano(e.startedAt)) + "-" + node)
    && e.nodeName == node + ":" + Key(d)
  }

  lemma ClashSharesKey(d: Execution, e: Execution, node: string)
    requires Clash(d, e, node)
    ensures d.jobName != e.jobName && ExecKey(d) == ExecKey(e)
  {
    var start := Itoa(UnixNano(e.startedAt)) + "-";
    assert |d.jobName| > |e.jobName|;
    assert Key(e) == start + (node + ":" + Key(d)) == (start + node) + ":" + Key(d);
    Reassociate(e.jobName, ":", start + node, ":", Key(d));
  }

  // Of two strings that continue to the same one, the shorter is a prefix of the longer.
  lemma ShorterIsPrefix(a: string, x: string, b: string, y: string)
    requires a + ":" + x == b + ":" + y && |a| < |b|
    ensures b == a + ":" + b[|a| + 1..] && x == b[|a| + 1..] + ":" + y
  {
    var s := a + ":" + x;
    assert s == b + (":" + y);
    assert a == s[..|a|] == b[..|a|] && s[|a|] == ':' == b[|a|];
    assert x == s[|a| + 1..];
  }

  lemma NumberHasNoColon(n: int)
    ensures NoColon(Itoa(n) + "-")
  {
  }

  // The first colon of a key is in the name of the node.
  lemma ColonInNode(e: Execution, part: string, rest: string) returns (node: string)
    requires Key(e) == part + ":" + rest
    ensures part == Itoa(UnixNano(e.startedAt)) + "-" + node && e.nodeName == node + ":" + rest
  {
    hide Itoa;
    var start := Itoa(UnixNano(e.startedAt)) + "-";
    NumberHasNoColon(UnixNano(e.startedAt));
    var s := Key(e);
    assert s == start + e.nodeName && s[|part|] == ':';
    assert forall i | 0 <= i < |start| :: s[i] == start[i] && start[i] != ':';
    assert |start| <= |part|;
    node := part[|start|..];
    assert part == s[..|part|];
    assert start == s[..|start|] == part[..|start|];
    assert e.nodeName == s[|start|..] == node + ":" + rest;
  }

  lemma SharedKeyClashes(d: Execution, e: Execution) returns (node: string)
    requires ExecKey(d) == ExecKey(e) && |e.jobName| < |d.jobName|
    ensures Clash(d, e, node)
  {
    hide Key;
    CommonPrefix(EXECUTIONS, d.jobName + ":" + Key(d), e.jobName + ":" + Key(e));
    var part := d.jobName[|e.jobName| + 1..];
    ShorterIsPrefix(e.jobName, Key(e), d.jobName, Key(d));
    node := ColonInNode(e, part, Key(d));
  }

  lemma SharedNameSharesKey(d: Execution, e: Execution)
    requires ExecKey(d) == ExecKey(e) && |d.jobName| == |e.jobName|
    ensures SameIdentity(d, e)
  {
    hide Key;
    CommonPrefix(EXECUTIONS, d.jobName + ":" + Key(d), e.jobName + ":" + Key(e));
    var s, t := d.jobName + ":" + Key(d), e.jobName + ":" + Key(e);
    assert d.jobName == s[..|d.jobName|] && e.jobName == t[..|e.jobName|];
    assert Key(d) == s[|d.jobName| + 1..] && Key(e) == t[|e.jobName| + 1..];
    KeyInjective(d, e);
  }

  /** For all names: two executions share a key exactly when they are the same execution or one of them clashes with
      the other in the one way in which keys of different jobs can. */
  lemma ExecKeysEqualIff(d: Execution, e: Execution)
    ensures ExecKey(d) == ExecKey(e) <==>
            SameIdentity(d, e) || (exists node :: Clash(d, e, node)) || (exists node :: Clash(e, d, node))
  {
    hide ExecKey, Clash, SameIdentity;
    if ExecKey(d) == ExecKey(e) {
      if |e.jobName| < |d.jobName| {
        var node := SharedKeyClashes(d, e);
      } else if |d.jobName| < |e.jobName| {
        var node := SharedKeyClashes(e, d);
      } else {
        SharedNameSharesKey(d, e);
      }
    } else {
      assert !SameIdentity(d, e) by { SameIdentitySameKey(d, e); }
      forall node ensures !Clash(d, e, node) && !Clash(e, d, node) {
        NoClash(d, e, node);
        NoClash(e, d, node);
      }
    }
  }

  lemma SameIdentitySameKey(d: Execution, e: Execution)
    ensures SameIdentity(d, e) ==> ExecKey(d) == ExecKey(e)
  {
  }

  lemma NoClash(d: Execution, e: Execution, node: string)
    requires ExecKey(d) != ExecKey(e)
    ensures !Clash(d, e, node)
  {
    if Clash(d, e, node) { ClashSharesKey(d, e, node); }
  }

  lemma PrefixStopsAtColon(a: string, b: string, x: string)
    requires NoColon(a)
    ensures a <= b + ":" + x <==> a <= b
  {
    var t := b + ":" + x;
    assert t[|b|] == ':' && t[..|b|] == b;
    if a <= t {
      assert forall i | 0 <= i < |a| :: a[i] == t[i] && a[i] != ':';
      assert a == t[..|a|];
    }
  }

  lemma PrefixWithColon(a: string, b: string, x: string)
    requires NoColon(a) && NoColon(b)
    ensures a + ":" <= b + ":" + x <==> a == b
  {
    var t := b + ":" + x;
    if a + ":" <= t {
      SplitUnique(':', a, t[|a| + 1..], b, x);
    }
  }

  /** A listing selects exactly the executions of the job. */
  lemma ListingSelects(jobName: string, e: Execution)
    requires NoColon(jobName) && NoColon(e.jobName)
    ensures Lists(ListPrefix(jobName), ExecKey(e)) <==> e.jobName == jobName
  {
    CommonPrefix(EXECUTIONS, jobName + ":", e.jobName + ":" + Key(e));
    PrefixWithColon(jobName, e.jobName, Key(e));
    assert |Key(e)| >= 2;
    assert e.jobName == jobName ==> |ExecKey(e)| == |ListPrefix(jobName)| + |Key(e)|;
  }

  /** The delete scan selects exactly the executions of the jobs whose name starts with the given name. */
  lemma DeletionSelects(jobName: string, e: Execution)
    requires NoColon(jobName)
    ensures HasPrefix(ExecKey(e), DeletePrefix(jobName)) <==> jobName <= e.jobName
  {
    CommonPrefix(EXECUTIONS, jobName, e.jobName + ":" + Key(e));
    PrefixStopsAtColon(jobName, e.jobName, Key(e));
  }
}
