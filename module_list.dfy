/**
 * Sequences of modules: filtered views, credit and point totals, the
 * "no two modules with the same identity" invariant of the module store, and
 * the stable ascending-credit sort used by the goal projection.
 */
module ModuleList {
  import opened Wrappers
  import opened ModuleData

  // ---------------------------------------------------------------- filters

  /** The modules of s that satisfy p, in their order in s (a filtered list view). */
  function Filter(s: seq<Module>, p: Module -> bool): (r: seq<Module>)
    ensures |r| <= |s|
  {
    if s == [] then []
    else if p(s[0]) then [s[0]] + Filter(s[1..], p)
    else Filter(s[1..], p)
  }

  /** A filter keeps exactly the elements that satisfy p, each at most as often as in s. */
  lemma {:induction false} FilterMembers(s: seq<Module>, p: Module -> bool)
    ensures forall m :: m in Filter(s, p) <==> m in s && p(m)
    ensures multiset(Filter(s, p)) <= multiset(s)
  {
    if s != [] {
      FilterMembers(s[1..], p);
      assert s == [s[0]] + s[1..];
    }
  }

  function Not(p: Module -> bool): Module -> bool
  {
    (m: Module) => !p(m)
  }

  lemma {:induction false} FilterAppend(a: seq<Module>, b: seq<Module>, p: Module -> bool)
    ensures Filter(a + b, p) == Filter(a, p) + Filter(b, p)
  {
    if a != [] {
      assert (a + b)[1..] == a[1..] + b;
      FilterAppend(a[1..], b, p);
    } else {
      assert a + b == b;
    }
  }

  /** Filtering by p and by its negation splits s into two parts. */
  lemma {:induction false} FilterSplit(s: seq<Module>, p: Module -> bool)
    ensures multiset(Filter(s, p)) + multiset(Filter(s, Not(p))) == multiset(s)
  {
    if s != [] {
      FilterSplit(s[1..], p);
      assert s == [s[0]] + s[1..];
    }
  }

  /** Filtering with a predicate that every element satisfies changes nothing. */
  lemma {:induction false} FilterAll(s: seq<Module>, p: Module -> bool)
    requires forall m :: m in s ==> p(m)
    ensures Filter(s, p) == s
  {
    if s != [] {
      FilterAll(s[1..], p);
    }
  }

  /** Filtering with a predicate that no element satisfies leaves nothing. */
  lemma {:induction false} FilterNone(s: seq<Module>, p: Module -> bool)
    requires forall m :: m in s ==> !p(m)
    ensures Filter(s, p) == []
  {
    if s != [] {
      FilterNone(s[1..], p);
    }
  }

  // ----------------------------------------------------------------- totals

  /** Sum of the credits (`calculateTotalModuleCredit`). */
  function CreditSum(s: seq<Module>): nat
  {
    if s == [] then 0 else s[0].credit + CreditSum(s[1..])
  }

  /** Sum of point times credit (`calculateTotalModulePoint`). */
  function PointSum(s: seq<Module>): real
  {
    if s == [] then 0.0 else s[0].grade.point * s[0].credit as real + PointSum(s[1..])
  }

  lemma {:induction false} SumsAppend(a: seq<Module>, b: seq<Module>)
    ensures CreditSum(a + b) == CreditSum(a) + CreditSum(b)
    ensures PointSum(a + b) == PointSum(a) + PointSum(b)
  {
    if a == [] {
      assert a + b == b;
    } else {
      assert (a + b)[1..] == a[1..] + b;
      SumsAppend(a[1..], b);
    }
  }

  // ------------------------------------------------------------- uniqueness

  function Ids(s: seq<Module>): (r: seq<Identity>)
    ensures |r| == |s| && forall i :: 0 <= i < |s| ==> r[i] == s[i].Id()
  {
    seq(|s|, i requires 0 <= i < |s| => s[i].Id())
  }

  /** Some module of s is the same module as (has the identity of) m. */
  predicate Contains(s: seq<Module>, m: Module)
  {
    m.Id() in Ids(s)
  }

  predicate NoDuplicates(xs: seq<Identity>)
  {
    forall i, j :: 0 <= i < j < |xs| ==> xs[i] != xs[j]
  }

  /** The store invariant: no two entries share code, year and semester. */
  predicate Unique(s: seq<Module>)
  {
    NoDuplicates(Ids(s))
  }

  lemma {:induction false} IdsAppend(a: seq<Module>, b: seq<Module>)
    ensures Ids(a + b) == Ids(a) + Ids(b)
  {
  }

  /** Duplicate-freedom is a statement about multiplicities. */
  lemma {:induction false} NoDuplicatesCount(xs: seq<Identity>)
    ensures NoDuplicates(xs) <==> forall x :: multiset(xs)[x] <= 1
  {
    if xs == [] {
    } else {
      var t := xs[1..];
      assert xs == [xs[0]] + t;
      NoDuplicatesCount(t);
      if NoDuplicates(xs) {
        assert NoDuplicates(t) by {
          forall i, j | 0 <= i < j < |t| ensures t[i] != t[j] {
            assert t[i] == xs[i + 1] && t[j] == xs[j + 1];
          }
        }
        forall k | 0 <= k < |t| ensures t[k] != xs[0] {
          assert t[k] == xs[k + 1];
        }
        assert multiset(t)[xs[0]] == 0;
      }
      if forall x :: multiset(xs)[x] <= 1 {
        assert forall x :: multiset(t)[x] <= 1 by {
          forall x ensures multiset(t)[x] <= 1 {
            assert multiset(xs)[x] <= 1;
          }
        }
        assert multiset(t)[xs[0]] == 0 by {
          assert multiset(xs)[xs[0]] == multiset(t)[xs[0]] + 1;
        }
        forall i, j | 0 <= i < j < |xs| ensures xs[i] != xs[j] {
          if i == 0 {
            assert xs[j] == t[j - 1];
            assert xs[j] in multiset(t);
          } else {
            assert xs[i] == t[i - 1] && xs[j] == t[j - 1];
          }
        }
      }
    }
  }

  /** Two lists with the same identities, counted with multiplicity, are unique together. */
  lemma UniqueFromIds(a: seq<Module>, b: seq<Module>)
    requires Unique(a)
    requires multiset(Ids(b)) <= multiset(Ids(a))
    ensures Unique(b)
  {
    NoDuplicatesCount(Ids(a));
    NoDuplicatesCount(Ids(b));
    forall x ensures multiset(Ids(b))[x] <= 1 {
      assert multiset(Ids(b))[x] <= multiset(Ids(a))[x];
    }
  }

  lemma {:induction false} IdsMultisetMonotone(a: seq<Module>, b: seq<Module>)
    requires multiset(a) <= multiset(b)
    ensures multiset(Ids(a)) <= multiset(Ids(b))
    decreases |a|
  {
    if a != [] {
      var x := a[0];
      assert x in multiset(b);
      var k :| 0 <= k < |b| && b[k] == x;
      var b' := b[..k] + b[k + 1..];
      assert b == b[..k] + [x] + b[k + 1..];
      assert a == [x] + a[1..];
      assert multiset(b) == multiset(b') + multiset{x};
      assert multiset(a) == multiset(a[1..]) + multiset{x};
      forall y ensures multiset(a[1..])[y] <= multiset(b')[y] {
        assert multiset(a)[y] <= multiset(b)[y];
      }
      IdsMultisetMonotone(a[1..], b');
      IdsAppend([x], a[1..]);
      IdsAppend(b[..k], [x]);
      IdsAppend(b[..k] + [x], b[k + 1..]);
      IdsAppend(b[..k], b[k + 1..]);
    }
  }

  /** Every sub-list (filter, removal) of a duplicate-free list is duplicate-free. */
  lemma UniqueSubMultiset(a: seq<Module>, b: seq<Module>)
    requires Unique(a)
    requires multiset(b) <= multiset(a)
    ensures Unique(b)
  {
    IdsMultisetMonotone(b, a);
    UniqueFromIds(a, b);
  }

  /** Appending a module whose identity is new keeps the list duplicate-free. */
  lemma UniqueAppend(s: seq<Module>, m: Module)
    requires Unique(s) && !Contains(s, m)
    ensures Unique(s + [m])
  {
    IdsAppend(s, [m]);
    assert Ids(s + [m]) == Ids(s) + [m.Id()];
  }

  /** Duplicate-free and containing m's identity: the entry at k is the only such entry. */
  lemma UniqueOnlyOne(s: seq<Module>, k: nat, j: nat)
    requires Unique(s) && k < |s| && j < |s| && s[k].Id() == s[j].Id()
    ensures k == j
  {
    assert Ids(s)[k] == s[k].Id() && Ids(s)[j] == s[j].Id();
  }

  // ------------------------------------------------------------------ sort

  /** Credits never decrease along s. */
  predicate SortedByCredit(s: seq<Module>)
  {
    forall i, j :: 0 <= i < j < |s| ==> s[i].credit <= s[j].credit
  }

  /** Insert x in front of the first element whose credit is at least x's. */
  function Insert(x: Module, t: seq<Module>): seq<Module>
  {
    if t == [] || x.credit <= t[0].credit then [x] + t
    else [t[0]] + Insert(x, t[1..])
  }

  /**
   * `targetableModules.sorted(Comparator.comparingInt(Module::getCreditsValue))`:
   * ascending credit, equal credits kept in list order.
   */
  function SortByCredit(s: seq<Module>): seq<Module>
  {
    if s == [] then [] else Insert(s[0], SortByCredit(s[1..]))
  }

  lemma {:induction false} InsertMultiset(x: Module, t: seq<Module>)
    ensures multiset(Insert(x, t)) == multiset(t) + multiset{x}
    ensures |Insert(x, t)| == |t| + 1
  {
    if !(t == [] || x.credit <= t[0].credit) {
      InsertMultiset(x, t[1..]);
      assert t == [t[0]] + t[1..];
    }
  }

  lemma {:induction false} InsertCreditSum(x: Module, t: seq<Module>)
    ensures CreditSum(Insert(x, t)) == x.credit + CreditSum(t)
  {
    if t == [] || x.credit <= t[0].credit {
      assert ([x] + t)[1..] == t;
    } else {
      InsertCreditSum(x, t[1..]);
      assert ([t[0]] + Insert(x, t[1..]))[1..] == Insert(x, t[1..]);
    }
  }

  lemma SortedCons(h: Module, r: seq<Module>)
    requires SortedByCredit(r)
    requires forall m :: m in r ==> h.credit <= m.credit
    ensures SortedByCredit([h] + r)
  {
    forall i, j | 0 <= i < j < |r| + 1 ensures ([h] + r)[i].credit <= ([h] + r)[j].credit {
      assert ([h] + r)[j] == r[j - 1];
      if i == 0 {
        assert r[j - 1] in r;
      } else {
        assert ([h] + r)[i] == r[i - 1];
      }
    }
  }

  lemma {:induction false} InsertSorted(x: Module, t: seq<Module>)
    requires SortedByCredit(t)
    ensures SortedByCredit(Insert(x, t))
  {
    if t == [] || x.credit <= t[0].credit {
      forall m | m in t ensures x.credit <= m.credit {
        var k :| 0 <= k < |t| && t[k] == m;
        assert t[0].credit <= t[k].credit || k == 0;
      }
      SortedCons(x, t);
    } else {
      var t' := t[1..];
      assert SortedByCredit(t');
      InsertSorted(x, t');
      InsertMultiset(x, t');
      forall m | m in Insert(x, t') ensures t[0].credit <= m.credit {
        assert m in multiset(Insert(x, t'));
        if m != x {
          assert m in multiset(t');
          var k :| 0 <= k < |t'| && t'[k] == m;
          assert t[k + 1] == m;
        }
      }
      SortedCons(t[0], Insert(x, t'));
    }
  }

  /** The sort returns the same modules, ordered by ascending credit. */
  lemma {:induction false} SortByCreditFacts(s: seq<Module>)
    ensures multiset(SortByCredit(s)) == multiset(s)
    ensures |SortByCredit(s)| == |s|
    ensures CreditSum(SortByCredit(s)) == CreditSum(s)
    ensures SortedByCredit(SortByCredit(s))
  {
    if s != [] {
      SortByCreditFacts(s[1..]);
      InsertMultiset(s[0], SortByCredit(s[1..]));
      InsertCreditSum(s[0], SortByCredit(s[1..]));
      InsertSorted(s[0], SortByCredit(s[1..]));
      assert s == [s[0]] + s[1..];
    }
  }

  /** A list already in ascending-credit order is left as it is by the sort. */
  lemma {:induction false} SortByCreditSorted(s: seq<Module>)
    requires SortedByCredit(s)
    ensures SortByCredit(s) == s
  {
    if s != [] {
      var t := s[1..];
      assert SortedByCredit(t);
      SortByCreditSorted(t);
      assert t == [] || s[0].credit <= t[0].credit;
      assert [s[0]] + t == s;
    }
  }

  function WithCredit(c: nat): Module -> bool
  {
    (m: Module) => m.credit == c
  }

  lemma FilterCons(h: Module, t: seq<Module>, p: Module -> bool)
    ensures Filter([h] + t, p) == (if p(h) then [h] else []) + Filter(t, p)
  {
    assert ([h] + t)[1..] == t;
  }

  lemma {:induction false} FilterInsert(x: Module, t: seq<Module>, c: nat)
    ensures Filter(Insert(x, t), WithCredit(c))
         == (if x.credit == c then [x] else []) + Filter(t, WithCredit(c))
  {
    var q := WithCredit(c);
    if t == [] || x.credit <= t[0].credit {
      FilterCons(x, t, q);
    } else {
      FilterInsert(x, t[1..], c);
      FilterCons(t[0], Insert(x, t[1..]), q);
      FilterCons(t[0], t[1..], q);
      assert t == [t[0]] + t[1..];
    }
  }

  /** Stability: the modules of any one credit value keep their relative order. */
  lemma {:induction false} SortByCreditStable(s: seq<Module>, c: nat)
    ensures Filter(SortByCredit(s), WithCredit(c)) == Filter(s, WithCredit(c))
  {
    if s != [] {
      SortByCreditStable(s[1..], c);
      FilterInsert(s[0], SortByCredit(s[1..]), c);
    }
  }

  /** A sorted list with positive total credit ends with a positive credit. */
  lemma {:induction false} SortedLastPositive(s: seq<Module>)
    requires SortedByCredit(s) && CreditSum(s) > 0
    ensures |s| > 0 && s[|s| - 1].credit > 0
  {
    if s[0].credit == 0 {
      assert SortedByCredit(s[1..]);
      SortedLastPositive(s[1..]);
    } else if |s| > 1 {
      assert s[0].credit <= s[|s| - 1].credit;
    }
  }

  // ------------------------------------------------------ more list facts

  /** Filtering twice, where the second predicate implies the first, is filtering once. */
  lemma {:induction false} FilterFilter(s: seq<Module>, p: Module -> bool, q: Module -> bool)
    requires forall m :: m in s && q(m) ==> p(m)
    ensures Filter(Filter(s, p), q) == Filter(s, q)
  {
    if s != [] {
      assert forall m :: m in s[1..] ==> m in s;
      FilterFilter(s[1..], p, q);
      if p(s[0]) {
        FilterCons(s[0], Filter(s[1..], p), q);
      }
    }
  }

  /** A filter is non-empty exactly when some position satisfies p. */
  lemma {:induction false} FilterNonEmpty(s: seq<Module>, p: Module -> bool)
    ensures |Filter(s, p)| > 0 <==> exists i :: 0 <= i < |s| && p(s[i])
  {
    if s != [] {
      FilterNonEmpty(s[1..], p);
      if !p(s[0]) {
        if exists i :: 0 <= i < |s| && p(s[i]) {
          var i :| 0 <= i < |s| && p(s[i]);
          assert s[1..][i - 1] == s[i];
        }
        if exists i :: 0 <= i < |s[1..]| && p(s[1..][i]) {
          var i :| 0 <= i < |s[1..]| && p(s[1..][i]);
          assert s[i + 1] == s[1..][i];
        }
      }
    }
  }

  /** A filter has more than one element exactly when two distinct positions satisfy p. */
  lemma {:induction false} FilterMoreThanOne(s: seq<Module>, p: Module -> bool)
    ensures |Filter(s, p)| > 1 <==> exists i, j :: 0 <= i < j < |s| && p(s[i]) && p(s[j])
  {
    if s != [] {
      var t := s[1..];
      FilterMoreThanOne(t, p);
      FilterNonEmpty(t, p);
      if exists i, j :: 0 <= i < j < |s| && p(s[i]) && p(s[j]) {
        var i, j :| 0 <= i < j < |s| && p(s[i]) && p(s[j]);
        assert t[j - 1] == s[j];
        if i > 0 {
          assert t[i - 1] == s[i];
        }
      }
      if p(s[0]) {
        if exists j :: 0 <= j < |t| && p(t[j]) {
          var j :| 0 <= j < |t| && p(t[j]);
          assert s[j + 1] == t[j];
        }
      } else if exists i, j :: 0 <= i < j < |t| && p(t[i]) && p(t[j]) {
        var i, j :| 0 <= i < j < |t| && p(t[i]) && p(t[j]);
        assert s[i + 1] == t[i] && s[j + 1] == t[j];
      }
    }
  }

  /** The position of the first element of s satisfying p, if there is one. */
  function FirstIndex(s: seq<Module>, p: Module -> bool): (r: Option<nat>)
    ensures r.Some? ==> r.value < |s| && p(s[r.value]) && forall j :: 0 <= j < r.value ==> !p(s[j])
    ensures r.None? ==> forall j :: 0 <= j < |s| ==> !p(s[j])
  {
    if s == [] then None
    else if p(s[0]) then Some(0)
    else match FirstIndex(s[1..], p)
      case None => None
      case Some(k) => Some(k + 1)
  }

  /** s without its element at position k (`List.remove` of that element). */
  function RemoveAt(s: seq<Module>, k: nat): (r: seq<Module>)
    requires k < |s|
    ensures |r| == |s| - 1
    ensures multiset(r) == multiset(s) - multiset{s[k]}
  {
    assert s == s[..k] + [s[k]] + s[k + 1..];
    s[..k] + s[k + 1..]
  }

  /** Removing an entry keeps the store invariant, and no entry with its identity is left. */
  lemma UniqueRemoveAt(s: seq<Module>, k: nat)
    requires Unique(s) && k < |s|
    ensures Unique(RemoveAt(s, k))
    ensures !Contains(RemoveAt(s, k), s[k])
  {
    var r := RemoveAt(s, k);
    UniqueSubMultiset(s, r);
    forall i | 0 <= i < |r|
      ensures Ids(r)[i] != s[k].Id()
    {
      if i < k {
        assert r[i] == s[i];
        assert Ids(s)[i] != Ids(s)[k];
      } else {
        assert r[i] == s[i + 1];
        assert Ids(s)[k] != Ids(s)[i + 1];
      }
    }
  }

  /**
   * Overwriting entry k keeps the store invariant when the new module has the
   * identity of the old one, or an identity not yet in the store.
   */
  lemma UniqueReplace(s: seq<Module>, k: nat, m: Module)
    requires Unique(s) && k < |s|
    requires m.Id() == s[k].Id() || !Contains(s, m)
    ensures Unique(s[k := m])
  {
    var t := s[k := m];
    if m.Id() == s[k].Id() {
      assert Ids(t) == Ids(s);
    } else {
      forall i, j | 0 <= i < j < |t|
        ensures Ids(t)[i] != Ids(t)[j]
      {
        if i == k {
          assert Ids(s)[j] in Ids(s);
        } else if j == k {
          assert Ids(s)[i] in Ids(s);
        } else {
          assert Ids(s)[i] != Ids(s)[j];
        }
      }
    }
  }
}
