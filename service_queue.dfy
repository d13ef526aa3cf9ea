/**
 * What the two service queues (src/Internal/Queue/DOMQueue.php and
 * src/Queue/HTMLQueue.php) share: a list of services keyed by class name, kept in
 * ascending priority by a stable sort, and run one after the other.
 */
module ServiceQueue {
  import opened Wrappers

  /**
   * A registered service: its class name (the key of the queue), its `prio()` and
   * which instance of the class it is.
   */
  datatype Service = Service(name: string, prio: int, instance: nat)

  /** The class names present. */
  function Names(s: seq<Service>): set<string>
  {
    set i | 0 <= i < |s| :: s[i].name
  }

  /** No class name occurs twice: the list is a map keyed by class name. */
  predicate Distinct(s: seq<Service>)
  {
    forall i, j :: 0 <= i < j < |s| ==> s[i].name != s[j].name
  }

  /** Ascending `prio()`. */
  predicate Sorted(s: seq<Service>)
  {
    forall i, j :: 0 <= i < j < |s| ==> s[i].prio <= s[j].prio
  }

  /** The queue's invariant: a map keyed by class name, in ascending priority. */
  predicate WellFormed(s: seq<Service>)
  {
    Distinct(s) && Sorted(s)
  }

  /**
   * `$services[$service::class] = $service`: a service whose class is already present
   * takes the place of the first entry of that class; any other is appended.
   */
  function Upsert(s: seq<Service>, x: Service): (r: seq<Service>)
    ensures x.name !in Names(s) ==> r == s + [x]
    decreases |s|
  {
    if s == [] then [x]
    else if s[0].name == x.name then s[0 := x]
    else
      assert Names(s[1..]) <= Names(s) by {
        forall n | n in Names(s[1..]) ensures n in Names(s) {
          var i :| 0 <= i < |s[1..]| && s[1..][i].name == n;
          assert s[i + 1] == s[1..][i];
        }
      }
      assert s == [s[0]] + s[1..];
      [s[0]] + Upsert(s[1..], x)
  }

  /** The first entry of the same class is the one replaced, in place. */
  lemma {:induction false} UpsertAt(s: seq<Service>, x: Service, i: nat)
    requires i < |s| && s[i].name == x.name
    requires forall j :: 0 <= j < i ==> s[j].name != x.name
    ensures Upsert(s, x) == s[i := x]
    decreases i
  {
    if i > 0 {
      assert forall j :: 0 <= j < i - 1 ==> s[1..][j] == s[j + 1];
      UpsertAt(s[1..], x, i - 1);
      assert s[i := x] == [s[0]] + s[1..][i - 1 := x];
    }
  }

  /** Every service of another class stays; the new one is present; nothing else is. */
  lemma UpsertMembers(s: seq<Service>, x: Service)
    requires Distinct(s)
    ensures forall y :: y in Upsert(s, x) <==> y == x || (y in s && y.name != x.name)
    ensures Distinct(Upsert(s, x))
    ensures Names(Upsert(s, x)) == Names(s) + {x.name}
    ensures |Upsert(s, x)| == if x.name in Names(s) then |s| else |s| + 1
  {
    if x.name in Names(s) {
      var i :| 0 <= i < |s| && s[i].name == x.name;
      UpsertAt(s, x, i);
      ReplaceMembers(s, i, x);
    } else {
      assert Upsert(s, x) == s + [x];
      AppendMembers(s, x);
    }
  }

  /** Replacing the entry of a class by another of the same class. */
  lemma ReplaceMembers(s: seq<Service>, i: nat, x: Service)
    requires Distinct(s) && i < |s| && s[i].name == x.name
    ensures forall y :: y in s[i := x] <==> y == x || (y in s && y.name != x.name)
    ensures Distinct(s[i := x])
    ensures Names(s[i := x]) == Names(s)
  {
    var r := s[i := x];
    forall y ensures y in r <==> y == x || (y in s && y.name != x.name) {
      assert r[i] == x;
      if y in s && y.name != x.name {
        var j :| 0 <= j < |s| && s[j] == y;
        assert r[j] == y;
      }
      if y in r && y != x {
        var j :| 0 <= j < |r| && r[j] == y;
        assert j != i && s[j] == y;
        assert s[j].name != s[i].name;
      }
    }
    forall n | n in Names(s) ensures n in Names(r) {
      var j :| 0 <= j < |s| && s[j].name == n;
      assert r[j].name == n;
    }
    forall n | n in Names(r) ensures n in Names(s) {
      var j :| 0 <= j < |r| && r[j].name == n;
      assert s[j].name == n;
    }
  }

  /** Appending a service of a class not yet present. */
  lemma AppendMembers(s: seq<Service>, x: Service)
    requires Distinct(s) && x.name !in Names(s)
    ensures Distinct(s + [x])
    ensures Names(s + [x]) == Names(s) + {x.name}
  {
    var r := s + [x];
    forall i, j | 0 <= i < j < |r| ensures r[i].name != r[j].name {
      if j == |s| { assert r[i].name in Names(s); }
    }
    assert r[|s|].name == x.name;
    forall n | n in Names(s) ensures n in Names(r) {
      var j :| 0 <= j < |s| && s[j].name == n;
      assert r[j] == s[j];
    }
  }

  /** The position at which a service of priority `p` goes: after every entry not above `p`. */
  function Position(t: seq<Service>, p: int): (k: nat)
    requires Sorted(t)
    ensures k <= |t|
    ensures forall i :: 0 <= i < k ==> t[i].prio <= p
    ensures forall i :: k <= i < |t| ==> p < t[i].prio
    decreases |t|
  {
    if t == [] || p < t[0].prio then 0
    else
      var k := Position(t[1..], p);
      assert forall i :: 1 <= i < |t| ==> t[i] == t[1..][i - 1];
      1 + k
  }

  /** One step of the stable sort: `x` goes after every entry whose priority is not above its own. */
  function Insert(t: seq<Service>, x: Service): (r: seq<Service>)
    requires Sorted(t)
    ensures Sorted(r)
    ensures multiset(r) == multiset(t) + multiset{x}
  {
    var k := Position(t, x.prio);
    SpliceSorted(t[..k], x, t[k..]);
    SpliceCount(t, k, x);
    t[..k] + [x] + t[k..]
  }

  lemma SpliceCount(t: seq<Service>, k: nat, x: Service)
    requires k <= |t|
    ensures multiset(t[..k] + [x] + t[k..]) == multiset(t) + multiset{x}
  {
    assert t == t[..k] + t[k..];
  }

  /** Putting `x` between the entries not above it and those above it keeps the order. */
  lemma SpliceSorted(below: seq<Service>, x: Service, above: seq<Service>)
    requires Sorted(below) && Sorted(above)
    requires forall i :: 0 <= i < |below| ==> below[i].prio <= x.prio
    requires forall i :: 0 <= i < |above| ==> x.prio < above[i].prio
    ensures Sorted(below + [x] + above)
  {
    var r := below + [x] + above;
    var k := |below|;
    forall i, j | 0 <= i < j < |r| ensures r[i].prio <= r[j].prio {
      if j < k {
        assert r[i] == below[i] && r[j] == below[j];
      } else if j == k {
        assert r[i] == below[i] && r[j] == x;
      } else if i < k {
        assert r[i] == below[i] && r[j] == above[j - k - 1];
      } else if i == k {
        assert r[j] == above[j - k - 1];
      } else {
        assert r[i] == above[i - k - 1] && r[j] == above[j - k - 1];
      }
    }
  }

  /**
   * `uasort` by `prio()`, which is stable: the result is in ascending priority and holds
   * the same services.
   */
  function SortByPrio(s: seq<Service>): (r: seq<Service>)
    ensures Sorted(r)
    ensures multiset(r) == multiset(s)
    decreases |s|
  {
    if s == [] then []
    else
      assert s == s[..|s| - 1] + [s[|s| - 1]];
      Insert(SortByPrio(s[..|s| - 1]), s[|s| - 1])
  }

  /** `array_filter`: the services `keep` accepts, in their order. */
  function Keep(s: seq<Service>, keep: Service -> bool): (r: seq<Service>)
    ensures |r| <= |s|
    decreases |s|
  {
    if s == [] then [] else (if keep(s[0]) then [s[0]] else []) + Keep(s[1..], keep)
  }

  /** Exactly the services `keep` accepts are kept. */
  lemma {:induction false} KeepMembers(s: seq<Service>, keep: Service -> bool)
    ensures forall y :: y in Keep(s, keep) <==> y in s && keep(y)
    decreases |s|
  {
    if s != [] {
      KeepMembers(s[1..], keep);
      assert forall y :: y in s <==> y == s[0] || y in s[1..];
    }
  }

  /** Filtering a concatenation filters each part. */
  lemma {:induction false} KeepConcat(a: seq<Service>, b: seq<Service>, keep: Service -> bool)
    ensures Keep(a + b, keep) == Keep(a, keep) + Keep(b, keep)
    decreases |a|
  {
    if a == [] {
      assert a + b == b;
    } else {
      var head := if keep(a[0]) then [a[0]] else [];
      assert (a + b)[0] == a[0];
      assert (a + b)[1..] == a[1..] + b;
      assert Keep(a + b, keep) == head + Keep(a[1..] + b, keep);
      KeepConcat(a[1..], b, keep);
      assert Keep(a, keep) == head + Keep(a[1..], keep);
    }
  }

  /** A filter that keeps every service changes nothing. */
  lemma {:induction false} KeepAll(s: seq<Service>, keep: Service -> bool)
    requires forall i :: 0 <= i < |s| ==> keep(s[i])
    ensures Keep(s, keep) == s
    decreases |s|
  {
    if s != [] {
      assert forall i :: 0 <= i < |s[1..]| ==> keep(s[1..][i]) by {
        forall i | 0 <= i < |s[1..]| ensures keep(s[1..][i]) { assert s[1..][i] == s[i + 1]; }
      }
      KeepAll(s[1..], keep);
      assert keep(s[0]);
      assert s == [s[0]] + s[1..];
    }
  }

  /** A filtered queue is still in ascending priority. */
  lemma {:induction false} KeepSorted(s: seq<Service>, keep: Service -> bool)
    requires Sorted(s)
    ensures Sorted(Keep(s, keep))
    decreases |s|
  {
    if s != [] {
      KeepSorted(s[1..], keep);
      var rest := Keep(s[1..], keep);
      KeepMembers(s[1..], keep);
      forall j | 0 <= j < |rest| ensures s[0].prio <= rest[j].prio {
        assert rest[j] in s[1..];
      }
    }
  }

  /** The selection of services of priority `p`. */
  function PrioIs(p: int): Service -> bool
  {
    (y: Service) => y.prio == p
  }

  /** Entries all above priority `p` hold none of priority `p`. */
  lemma {:induction false} NoneOfPrio(t: seq<Service>, p: int)
    requires forall i :: 0 <= i < |t| ==> p < t[i].prio
    ensures Keep(t, PrioIs(p)) == []
    decreases |t|
  {
    if t != [] {
      assert forall i :: 0 <= i < |t[1..]| ==> t[1..][i] == t[i + 1];
      NoneOfPrio(t[1..], p);
      assert !PrioIs(p)(t[0]);
    }
  }

  /** When `x` or the entries after it are all filtered out, `x` may as well come last. */
  lemma KeepMove(below: seq<Service>, x: Service, above: seq<Service>, keep: Service -> bool)
    requires Keep(above, keep) == [] || Keep([x], keep) == []
    ensures Keep(below + [x] + above, keep) == Keep(below + above, keep) + Keep([x], keep)
  {
    var low, mid, high := Keep(below, keep), Keep([x], keep), Keep(above, keep);
    assert Keep(below + [x] + above, keep) == low + mid + high by {
      KeepConcat(below + [x], above, keep);
      KeepConcat(below, [x], keep);
    }
    assert Keep(below + above, keep) == low + high by {
      KeepConcat(below, above, keep);
    }
  }

  /** Placing `x` in front of entries all above its priority: `x` comes last in its own class. */
  lemma KeepSplice(below: seq<Service>, x: Service, above: seq<Service>, p: int)
    requires forall i :: 0 <= i < |above| ==> x.prio < above[i].prio
    ensures Keep(below + [x] + above, PrioIs(p)) == Keep(below + above, PrioIs(p)) + Keep([x], PrioIs(p))
  {
    if p == x.prio {
      NoneOfPrio(above, p);
    } else {
      assert Keep([x], PrioIs(p)) == [] by { assert [x][1..] == []; }
    }
    KeepMove(below, x, above, PrioIs(p));
  }

  /** Inserting keeps each priority class in order and puts `x` last in its own. */
  lemma InsertStable(t: seq<Service>, x: Service, p: int)
    requires Sorted(t)
    ensures Keep(Insert(t, x), PrioIs(p)) == Keep(t, PrioIs(p)) + Keep([x], PrioIs(p))
  {
    var k := Position(t, x.prio);
    assert t == t[..k] + t[k..];
    KeepSplice(t[..k], x, t[k..], p);
  }

  /** The sort is stable: services of equal priority keep their relative order. */
  lemma {:induction false} SortStable(s: seq<Service>, p: int)
    ensures Keep(SortByPrio(s), PrioIs(p)) == Keep(s, PrioIs(p))
    decreases |s|
  {
    if s != [] {
      var init := s[..|s| - 1];
      SortStable(init, p);
      InsertStable(SortByPrio(init), s[|s| - 1], p);
      assert s == init + [s[|s| - 1]];
      KeepConcat(init, [s[|s| - 1]], PrioIs(p));
    }
  }

  /** Reordering a list keyed by class name keeps it keyed by class name. */
  lemma PermutationDistinct(s: seq<Service>, r: seq<Service>)
    requires Distinct(s) && multiset(r) == multiset(s)
    ensures Distinct(r)
  {
    forall i, j | 0 <= i < j < |r| ensures r[i].name != r[j].name {
      if r[i].name == r[j].name {
        assert r[i] in multiset(s) && r[j] in multiset(s);
        var a :| 0 <= a < |s| && s[a] == r[i];
        var b :| 0 <= b < |s| && s[b] == r[j];
        if a == b {
          TwiceInMultiset(r, i, j);
          OnceInMultiset(s, a);
        }
      }
    }
  }

  /** An entry that occurs at two indices is counted twice. */
  lemma TwiceInMultiset(r: seq<Service>, i: nat, j: nat)
    requires i < j < |r| && r[i] == r[j]
    ensures multiset(r)[r[i]] >= 2
  {
    assert r == r[..i] + [r[i]] + r[i + 1..j] + [r[j]] + r[j + 1..];
  }

  /** In a list keyed by class name every entry is counted once. */
  lemma OnceInMultiset(s: seq<Service>, a: nat)
    requires Distinct(s) && a < |s|
    ensures multiset(s)[s[a]] == 1
  {
    assert s == s[..a] + [s[a]] + s[a + 1..];
    assert s[a] !in s[..a] by {
      forall j | 0 <= j < a ensures s[..a][j] != s[a] { assert s[..a][j].name == s[j].name; }
    }
    assert s[a] !in s[a + 1..] by {
      var tail := s[a + 1..];
      forall j | 0 <= j < |tail| ensures tail[j] != s[a] { assert tail[j] == s[a + 1 + j]; }
    }
  }

  /** `$services[$className] ?? null`: the service registered for the class, if any. */
  function Lookup(s: seq<Service>, name: string): (r: Option<Service>)
    ensures r.Some? ==> r.value in s && r.value.name == name
    ensures r.None? <==> name !in Names(s)
    decreases |s|
  {
    if s == [] then None
    else if s[0].name == name then Some(s[0])
    else
      var r := Lookup(s[1..], name);
      assert name in Names(s) ==> name in Names(s[1..]) by {
        if name in Names(s) {
          var i :| 0 <= i < |s| && s[i].name == name;
          assert s[1..][i - 1] == s[i];
        }
      }
      assert r.Some? ==> r.value in s;
      r
  }

  /** In a list keyed by class name, the lookup finds exactly the entry of that class. */
  lemma LookupDistinct(s: seq<Service>, name: string, y: Service)
    requires Distinct(s)
    ensures Lookup(s, name) == Some(y) <==> y in s && y.name == name
  {
    if y in s && y.name == name {
      var r := Lookup(s, name);
      assert r.Some?;
      var i :| 0 <= i < |s| && s[i] == r.value;
      var j :| 0 <= j < |s| && s[j] == y;
      assert i == j;
    }
  }

  /** `add` as a whole: replace or append, then sort by priority. */
  function Add(s: seq<Service>, x: Service): seq<Service>
  {
    SortByPrio(Upsert(s, x))
  }

  /** After adding, the queue holds `x` and the services of every other class it held. */
  lemma AddMembers(s: seq<Service>, x: Service)
    requires Distinct(s)
    ensures forall y :: y in Add(s, x) <==> y == x || (y in s && y.name != x.name)
    ensures Distinct(Add(s, x))
  {
    UpsertMembers(s, x);
    var u, r := Upsert(s, x), Add(s, x);
    PermutationDistinct(u, r);
    forall y ensures y in r <==> y in u {
      assert y in r <==> y in multiset(r);
    }
  }

  /** Adding keeps the queue keyed by class name and in ascending priority, and adds the class of `x`. */
  lemma AddWellFormed(s: seq<Service>, x: Service)
    requires Distinct(s)
    ensures WellFormed(Add(s, x))
    ensures Names(Add(s, x)) == Names(s) + {x.name}
  {
    AddMembers(s, x);
    NamesAfterAdd(s, x, Add(s, x));
  }

  /** The classes of a list holding `x` and the other classes' services of `s`. */
  lemma NamesAfterAdd(s: seq<Service>, x: Service, r: seq<Service>)
    requires forall y :: y in r <==> y == x || (y in s && y.name != x.name)
    ensures Names(r) == Names(s) + {x.name}
  {
    assert Names(r) <= Names(s) + {x.name} by {
      forall n | n in Names(r) ensures n in Names(s) + {x.name} {
        var i :| 0 <= i < |r| && r[i].name == n;
        if r[i] != x {
          var j :| 0 <= j < |s| && s[j] == r[i];
        }
      }
    }
    assert Names(s) + {x.name} <= Names(r) by {
      forall n | n in Names(s) + {x.name} ensures n in Names(r) {
        var y := if n == x.name then x else var j :| 0 <= j < |s| && s[j].name == n; s[j];
        assert y in r;
        var i :| 0 <= i < |r| && r[i] == y;
      }
    }
  }

  /** After adding, the class of `x` maps to `x` and every other class to what it mapped to before. */
  lemma AddLookup(s: seq<Service>, x: Service, name: string)
    requires Distinct(s)
    ensures Lookup(Add(s, x), name) == if name == x.name then Some(x) else Lookup(s, name)
  {
    AddMembers(s, x);
    var r := Add(s, x);
    if name == x.name {
      LookupDistinct(r, name, x);
    } else if Lookup(s, name).Some? {
      LookupDistinct(r, name, Lookup(s, name).value);
    } else {
      forall j | 0 <= j < |r| ensures r[j].name != name {
        assert r[j] in r;
      }
    }
  }

  /** Running the services in order, each one's output the next one's input. */
  function Thread<T>(s: seq<Service>, run: (Service, T) -> T, x: T): T
    decreases |s|
  {
    if s == [] then x else run(s[|s| - 1], Thread(s[..|s| - 1], run, x))
  }

  /** Running two lists in turn is running their concatenation. */
  lemma {:induction false} ThreadConcat<T>(a: seq<Service>, b: seq<Service>, run: (Service, T) -> T, x: T)
    ensures Thread(a + b, run, x) == Thread(b, run, Thread(a, run, x))
    decreases |b|
  {
    if b == [] {
      assert a + b == a;
    } else {
      assert (a + b)[..|a + b| - 1] == a + b[..|b| - 1];
      ThreadConcat(a, b[..|b| - 1], run, x);
    }
  }

  /** A run that only records which service ran. */
  function Record(y: Service, trace: seq<Service>): seq<Service>
  {
    trace + [y]
  }

  /** Each service runs exactly once, in the stored order. */
  lemma {:induction false} ThreadTrace(s: seq<Service>)
    ensures Thread(s, Record, []) == s
    decreases |s|
  {
    if s != [] {
      ThreadTrace(s[..|s| - 1]);
      assert s[..|s| - 1] + [s[|s| - 1]] == s;
    }
  }
}
