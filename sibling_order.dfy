/** The order in which the children of a node are emitted: a set ordered by
    the sibling comparator, filled one child at a time. */
module SiblingOrder {
  import opened Wrappers
  import opened Records
  import opened Names

  /** The sibling comparator: `a` sorts before `b` when `a` is prioritized
      and `b` is not, or when both have the same priority and `a`'s name is
      the larger one (descending name order). */
  predicate Before(prio: set<Record>, a: Record, b: Record): (r: bool)
    ensures a in prio && b !in prio ==> r
    ensures a !in prio && b in prio ==> !r
    ensures (a in prio) == (b in prio) ==> (r <==> NameLess(b.name, a.name))
  {
    var pa, pb := a in prio, b in prio;
    (pa && !pb) || (pa == pb && NameLess(b.name, a.name))
  }

  /** The comparator is a strict order, total on records with distinct
      names. */
  lemma BeforeIsStrictTotalOrder(prio: set<Record>, a: Record, b: Record, c: Record)
    ensures !Before(prio, a, a)
    ensures !(Before(prio, a, b) && Before(prio, b, a))
    ensures Before(prio, a, b) && Before(prio, b, c) ==> Before(prio, a, c)
    ensures a.name != b.name ==> Before(prio, a, b) || Before(prio, b, a)
  {
    NameLessIrreflexive(a.name);
    NameLessAsymmetric(a.name, b.name);
    if Before(prio, a, b) && Before(prio, b, c) && (a in prio) == (c in prio) {
      NameLessTransitive(c.name, b.name, a.name);
    }
    if a.name != b.name {
      NameLessTotal(a.name, b.name);
    }
  }

  ghost predicate StrictlySorted(prio: set<Record>, s: seq<Record>)
  {
    forall i, j | 0 <= i < j < |s| :: Before(prio, s[i], s[j])
  }

  /** Insertion into a set ordered by the comparator: `x` goes in front of
      the first element it sorts before; when an element already present is
      equivalent to `x` (neither sorts before the other), the set is left as
      it is. */
  function Insert(prio: set<Record>, s: seq<Record>, x: Record): (r: seq<Record>)
  {
    if s == [] then [x]
    else if Before(prio, x, s[0]) then [x] + s
    else if Before(prio, s[0], x) then
      [s[0]] + Insert(prio, s[1..], x)
    else s
  }

  /** Insertion adds `x` at most, keeps every element, and adds `x` unless
      an element with its name is there already. */
  lemma {:induction false} InsertMembers(prio: set<Record>, s: seq<Record>, x: Record)
    ensures var r := Insert(prio, s, x);
      && (forall y | y in r :: y in s || y == x)
      && (forall y | y in s :: y in r)
      && ((forall y | y in s :: y.name != x.name) ==> x in r)
      && r != []
    decreases |s|
  {
    if s != [] && !Before(prio, x, s[0]) && Before(prio, s[0], x) {
      InsertMembers(prio, s[1..], x);
      assert forall y | y in s :: y == s[0] || y in s[1..];
    } else if s != [] && !Before(prio, x, s[0]) {
      BeforeIsStrictTotalOrder(prio, x, s[0], x);
    }
  }

  lemma {:induction false} InsertKeepsSorted(prio: set<Record>, s: seq<Record>, x: Record)
    requires StrictlySorted(prio, s)
    ensures StrictlySorted(prio, Insert(prio, s, x))
  {
    if s == [] {
    } else if Before(prio, x, s[0]) {
      forall j | 0 <= j < |s|
        ensures Before(prio, x, s[j])
      {
        BeforeIsStrictTotalOrder(prio, x, s[0], s[j]);
      }
    } else if Before(prio, s[0], x) {
      var rest := Insert(prio, s[1..], x);
      InsertKeepsSorted(prio, s[1..], x);
      InsertMembers(prio, s[1..], x);
      forall j | 0 <= j < |rest|
        ensures Before(prio, s[0], rest[j])
      {
        if rest[j] != x {
          assert rest[j] in rest;
          var k :| 0 <= k < |s[1..]| && s[1..][k] == rest[j];
          assert s[k + 1] == rest[j];
        }
      }
      assert Insert(prio, s, x) == [s[0]] + rest;
    }
  }

  /** The children, inserted one by one in the order given, into the set
      ordered by the comparator. */
  function SortChildren(prio: set<Record>, kids: seq<Record>): (r: seq<Record>)
  {
    if kids == [] then []
    else
      var init, last := kids[..|kids| - 1], kids[|kids| - 1];
      Insert(prio, SortChildren(prio, init), last)
  }

  /** Sorting keeps only children, and keeps some when there are any. */
  lemma {:induction false} SortChildrenMembers(prio: set<Record>, kids: seq<Record>)
    ensures forall y | y in SortChildren(prio, kids) :: y in kids
    ensures kids != [] ==> SortChildren(prio, kids) != []
    decreases |kids|
  {
    if kids != [] {
      var init, last := kids[..|kids| - 1], kids[|kids| - 1];
      SortChildrenMembers(prio, init);
      InsertMembers(prio, SortChildren(prio, init), last);
      assert forall y | y in init :: y in kids;
    }
  }

  /** The children come out in the comparator's order. */
  lemma {:induction false} SortChildrenSorted(prio: set<Record>, kids: seq<Record>)
    ensures StrictlySorted(prio, SortChildren(prio, kids))
    decreases |kids|
  {
    if kids != [] {
      var init, last := kids[..|kids| - 1], kids[|kids| - 1];
      SortChildrenSorted(prio, init);
      InsertKeepsSorted(prio, SortChildren(prio, init), last);
    }
  }

  /** A strictly sorted sequence holds no element twice. */
  lemma SortedDistinct(prio: set<Record>, s: seq<Record>)
    requires StrictlySorted(prio, s)
    ensures Distinct(s)
  {
    forall i, j | 0 <= i < j < |s|
      ensures s[i] != s[j]
    {
      BeforeIsStrictTotalOrder(prio, s[i], s[j], s[j]);
    }
  }

  /** When the children carry distinct names, the sorted set keeps every
      one of them, once. */
  lemma {:induction false} SortKeepsChildren(prio: set<Record>, kids: seq<Record>)
    requires UniqueNames(kids)
    ensures forall k | k in kids :: k in SortChildren(prio, kids)
    ensures Distinct(SortChildren(prio, kids))
  {
    if kids != [] {
      var init, last := kids[..|kids| - 1], kids[|kids| - 1];
      assert UniqueNames(init) && forall y | y in init :: y.name != last.name by {
        UniqueInit(kids);
      }
      SortKeepsChildren(prio, init);
      SortChildrenMembers(prio, init);
      InsertMembers(prio, SortChildren(prio, init), last);
      assert forall k | k in kids :: k in init || k == last;
    }
    assert Distinct(SortChildren(prio, kids)) by {
      SortChildrenSorted(prio, kids);
      SortedDistinct(prio, SortChildren(prio, kids));
    }
  }

  /** Without its last element, a sequence with distinct names still has
      them, and none of the rest shares the last one's name. */
  lemma UniqueInit(kids: seq<Record>)
    requires UniqueNames(kids) && kids != []
    ensures UniqueNames(kids[..|kids| - 1])
    ensures forall y | y in kids[..|kids| - 1] :: y.name != kids[|kids| - 1].name
  {
    var init, last := kids[..|kids| - 1], kids[|kids| - 1];
    forall y | y in init
      ensures y.name != last.name
    {
      var j :| 0 <= j < |init| && init[j] == y;
      assert kids[j] == y;
    }
  }

  /** Two strictly sorted sequences with the same elements are equal. */
  lemma {:induction false} SortedUnique(prio: set<Record>, a: seq<Record>, b: seq<Record>)
    requires StrictlySorted(prio, a) && StrictlySorted(prio, b)
    requires forall y :: y in a <==> y in b
    ensures a == b
    decreases |a|
  {
    assert a != [] ==> a[0] in b;
    assert b != [] ==> b[0] in a;
    if a != [] && b != [] {
      if a[0] != b[0] {
        assert b[0] in b && a[0] in a;
        var i :| 0 <= i < |a| && a[i] == b[0];
        var j :| 0 <= j < |b| && b[j] == a[0];
        BeforeIsStrictTotalOrder(prio, a[0], b[0], b[0]);
        assert false;
      }
      SortedDistinct(prio, a);
      SortedDistinct(prio, b);
      forall y
        ensures y in a[1..] <==> y in b[1..]
      {
        assert y in a[1..] <==> y in a && y != a[0];
        assert y in b[1..] <==> y in b && y != b[0];
      }
      SortedUnique(prio, a[1..], b[1..]);
      assert a == [a[0]] + a[1..] && b == [b[0]] + b[1..];
    }
  }

  /** The emission order of siblings depends only on which children there
      are, not on the order the record store lists them in. */
  lemma SortIgnoresInputOrder(prio: set<Record>, s: seq<Record>, t: seq<Record>)
    requires UniqueNames(s) && UniqueNames(t)
    requires forall y :: y in s <==> y in t
    ensures SortChildren(prio, s) == SortChildren(prio, t)
  {
    SortKeepsChildren(prio, s);
    SortKeepsChildren(prio, t);
    SortChildrenSorted(prio, s);
    SortChildrenSorted(prio, t);
    SortChildrenMembers(prio, s);
    SortChildrenMembers(prio, t);
    SortedUnique(prio, SortChildren(prio, s), SortChildren(prio, t));
  }

  /** The loop that fills the ordered set of children. */
  method SortedChildren(prio: set<Record>, kids: seq<Record>) returns (sorted: seq<Record>)
    ensures sorted == SortChildren(prio, kids)
  {
    sorted := [];
    for i := 0 to |kids|
      invariant sorted == SortChildren(prio, kids[..i])
    {
      assert kids[..i + 1][..i] == kids[..i];
      sorted := Insert(prio, sorted, kids[i]);
    }
    assert kids[..|kids|] == kids;
  }

  /** Siblings of equal priority come in descending name order, and a
      prioritized sibling comes first whatever its name. */
  lemma SiblingOrderExample(root: Record)
    ensures var a, b := Record("A", Some(root), false), Record("B", Some(root), true);
      && SortChildren({}, [a, b]) == [b, a]
      && SortChildren({a}, [a, b]) == [a, b]
  {
    var a, b := Record("A", Some(root), false), Record("B", Some(root), true);
    assert a != b && NameLess(a.name, b.name) by {
      assert a.name[0] < b.name[0];
    }
    assert [a, b][..1] == [a] && [a][..0] == [];
    var p: set<Record> := {a};
    assert SortChildren({}, []) == [] && SortChildren(p, []) == [];
    assert SortChildren({}, [a]) == [a] && SortChildren(p, [a]) == [a];
    assert Before({}, b, a) && Before(p, a, b) && !Before(p, b, a);
    assert [a][1..] == [] && Insert(p, [], b) == [b];
    assert Insert({}, [a], b) == [b, a] && Insert(p, [a], b) == [a, b];
  }
}
