/** Libraries that keep every promise the model relies on exist: keys in lexicographic order, and an insertion sort. */
module LawfulLibs {
  import opened Wrappers
  import opened Types
  import opened ScheduleHash
  import opened CronTable

  predicate Leq(a: string, b: string) {
    a == [] || (b != [] && (a[0] < b[0] || (a[0] == b[0] && Leq(a[1..], b[1..]))))
  }

  lemma {:induction false} LeqTotal(a: string, b: string)
    ensures Leq(a, b) || Leq(b, a)
  {
    if a != [] && b != [] { LeqTotal(a[1..], b[1..]); }
  }

  lemma {:induction false} LeqAntisymmetric(a: string, b: string)
    requires Leq(a, b) && Leq(b, a)
    ensures a == b
  {
    if a != [] {
      LeqAntisymmetric(a[1..], b[1..]);
      assert a == [a[0]] + a[1..] && b == [b[0]] + b[1..];
    }
  }

  lemma {:induction false} LeqTransitive(a: string, b: string, c: string)
    requires Leq(a, b) && Leq(b, c)
    ensures Leq(a, c)
  {
    if a != [] && b != [] && c != [] && a[0] == b[0] == c[0] { LeqTransitive(a[1..], b[1..], c[1..]); }
  }

  ghost predicate IsLeast(keys: set<string>, m: string) {
    m in keys && forall k | k in keys :: Leq(m, k)
  }

  lemma {:induction false} LeastExists(keys: set<string>) returns (m: string)
    requires keys != {}
    ensures IsLeast(keys, m)
  {
    var k :| k in keys;
    var rest := keys - {k};
    if rest == {} {
      m := k;
      LeqTotal(k, k);
      assert keys == {k};
    } else {
      m := LeastExists(rest);
      LeqTotal(k, m);
      LeqTotal(k, k);
      if Leq(k, m) {
        forall j | j in keys ensures Leq(k, j) {
          if j != k { LeqTransitive(k, m, j); }
        }
        m := k;
      }
    }
  }

  ghost function Least(keys: set<string>): (m: string)
    requires keys != {}
    ensures IsLeast(keys, m)
  {
    LeastOf(keys);
    var m :| IsLeast(keys, m);
    m
  }

  lemma LeastOf(keys: set<string>)
    requires keys != {}
    ensures exists m :: IsLeast(keys, m)
  {
    var m := LeastExists(keys);
  }

  ghost function Ascending(keys: set<string>): seq<string> {
    if keys == {} then [] else [Least(keys)] + Ascending(keys - {Least(keys)})
  }

  lemma {:induction false} AscendingIsEveryKey(keys: set<string>)
    ensures multiset(Ascending(keys)) == multiset(keys)
  {
    if keys != {} {
      var m := Least(keys);
      AscendingIsEveryKey(keys - {m});
      assert keys == keys - {m} + {m};
    }
  }

  lemma {:induction false} RestrictIgnores(l: seq<string>, some: set<string>, m: string)
    requires m !in l
    ensures Restrict(l, some) == Restrict(l, some - {m})
  {
    if l != [] { RestrictIgnores(l[1..], some, m); }
  }

  lemma {:induction false} RestrictAscending(keys: set<string>, some: set<string>)
    requires some <= keys
    ensures Ascending(some) == Restrict(Ascending(keys), some)
  {
    if keys != {} {
      var m := Least(keys);
      var rest := Ascending(keys - {m});
      AscendingIsEveryKey(keys - {m});
      assert m !in rest by { assert m !in multiset(rest); }
      assert Ascending(keys)[1..] == rest;
      RestrictIgnores(rest, some, m);
      RestrictAscending(keys - {m}, some - {m});
      if m in some {
        LeqAntisymmetric(m, Least(some));
      } else {
        assert some - {m} == some;
      }
    }
  }

  function InsertByStart(x: Execution, l: seq<Execution>): seq<Execution> {
    if l == [] || x.startedAt <= l[0].startedAt then [x] + l else [l[0]] + InsertByStart(x, l[1..])
  }

  function SortByStart(l: seq<Execution>): seq<Execution> {
    if l == [] then [] else InsertByStart(l[0], SortByStart(l[1..]))
  }

  lemma {:induction false} InsertAddsOne(x: Execution, l: seq<Execution>)
    ensures multiset(InsertByStart(x, l)) == multiset(l) + multiset{x}
  {
    if l != [] && x.startedAt > l[0].startedAt {
      InsertAddsOne(x, l[1..]);
      assert l == [l[0]] + l[1..];
    }
  }

  // No element starts before the given time.
  predicate From(t: Time, l: seq<Execution>) {
    forall i | 0 <= i < |l| :: t <= l[i].startedAt
  }

  lemma {:induction false} InsertKeepsFrom(x: Execution, l: seq<Execution>, t: Time)
    requires From(t, l) && t <= x.startedAt
    ensures From(t, InsertByStart(x, l))
  {
    if l != [] && x.startedAt > l[0].startedAt {
      assert From(t, l[1..]);
      InsertKeepsFrom(x, l[1..], t);
    }
  }

  lemma {:induction false} InsertKeepsSorted(x: Execution, l: seq<Execution>)
    requires SortedByStart(l)
    ensures SortedByStart(InsertByStart(x, l))
  {
    if l != [] && x.startedAt > l[0].startedAt {
      InsertKeepsSorted(x, l[1..]);
      InsertKeepsFrom(x, l[1..], l[0].startedAt);
    }
  }

  lemma {:induction false} SortSorts(l: seq<Execution>)
    ensures multiset(SortByStart(l)) == multiset(l) && SortedByStart(SortByStart(l))
  {
    if l != [] {
      SortSorts(l[1..]);
      InsertAddsOne(l[0], SortByStart(l[1..]));
      InsertKeepsSorted(l[0], SortByStart(l[1..]));
      assert l == [l[0]] + l[1..];
    }
  }

  /** All promises can be kept at once. */
  lemma LawfulLibsExist() returns (libs: Libs)
    ensures libs.Lawful() && ZoneLaw(libs) && HashLaw(libs)
  {
    libs := Libs(
      (spec: string) => true, (spec: string, t: Time) => t, (name: string, spec: string) => Hashed(name, spec),
      (zone: string) => true, (duration: string) => true, (limit: string) => true, (c: char) => false,
      (t: Time) => "", (keys: set<string>) => Ascending(keys), (l: seq<Execution>) => SortByStart(l));
    forall keys: set<string> ensures multiset(libs.ascend(keys)) == multiset(keys) {
      AscendingIsEveryKey(keys);
    }
    forall keys: set<string>, some: set<string> | some <= keys
      ensures libs.ascend(some) == Restrict(libs.ascend(keys), some)
    {
      RestrictAscending(keys, some);
    }
    forall l: seq<Execution>
      ensures multiset(libs.sortByStart(l)) == multiset(l) && SortedByStart(libs.sortByStart(l))
    {
      SortSorts(l);
    }
  }
}
