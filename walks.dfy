/** Depth-first walks over the tree of a hierarchy: the reference order in
    which concrete nodes are met, for either order of visiting siblings. */
module Walks {
  import opened Wrappers
  import opened Records
  import opened ChildTree
  import opened SiblingOrder

  /** How the children of a node are visited: the sequence of children
      handed to the walk for each node. */
  type Visit = Record -> seq<Record>

  /** Every node visited below `x` is a record deriving from `x`. */
  ghost predicate VisitsChildren(records: seq<Record>, visit: Visit)
  {
    forall x, k | k in visit(x) :: k in records && k.base == Some(x)
  }

  /** Moreover every record deriving from `x` is visited below it, once. */
  ghost predicate VisitsExactly(records: seq<Record>, visit: Visit)
  {
    && VisitsChildren(records, visit)
    && (forall x, k | k in records && k.base == Some(x) :: k in visit(x))
    && (forall x :: Distinct(visit(x)))
  }

  /** Children visited as the record store lists them. */
  function DeclaredOrder(records: seq<Record>): (visit: Visit)
    ensures VisitsChildren(records, visit)
  {
    x => ChildrenOf(records, x)
  }

  /** Children visited in the sibling comparator's order under `prio`. */
  function SortedOrder(records: seq<Record>, prio: set<Record>): (visit: Visit)
    ensures VisitsChildren(records, visit)
  {
    SortedChildrenOf(records, prio);
    x => SortChildren(prio, ChildrenOf(records, x))
  }

  /** Sorting the children of any node keeps to those children. */
  lemma SortedChildrenOf(records: seq<Record>, prio: set<Record>)
    ensures forall x, k | k in SortChildren(prio, ChildrenOf(records, x)) :: k in ChildrenOf(records, x)
  {
    forall x
      ensures forall k | k in SortChildren(prio, ChildrenOf(records, x)) :: k in ChildrenOf(records, x)
    {
      SortChildrenMembers(prio, ChildrenOf(records, x));
    }
  }

  lemma DeclaredOrderVisitsExactly(records: seq<Record>)
    requires UniqueNames(records)
    ensures VisitsExactly(records, DeclaredOrder(records))
  {
    var visit := DeclaredOrder(records);
    forall x, k | k in records && k.base == Some(x)
      ensures k in visit(x)
    {
      ChildrenOfComplete(records, x, k);
    }
    forall x
      ensures Distinct(visit(x))
    {
      ChildrenUniqueNames(records, x);
      UniqueNamesDistinct(ChildrenOf(records, x));
    }
  }

  lemma SortedOrderVisitsExactly(records: seq<Record>, prio: set<Record>)
    requires UniqueNames(records)
    ensures VisitsExactly(records, SortedOrder(records, prio))
  {
    forall x
      ensures var kids := SortChildren(prio, ChildrenOf(records, x));
        && (forall k | k in records && k.base == Some(x) :: k in kids)
        && Distinct(kids)
    {
      SortedChildrenExact(records, prio, x);
    }
  }

  lemma SortedChildrenExact(records: seq<Record>, prio: set<Record>, x: Record)
    requires UniqueNames(records)
    ensures var kids := SortChildren(prio, ChildrenOf(records, x));
      && (forall k | k in records && k.base == Some(x) :: k in kids)
      && Distinct(kids)
  {
    ChildrenUniqueNames(records, x);
    SortKeepsChildren(prio, ChildrenOf(records, x));
    forall k | k in records && k.base == Some(x)
      ensures k in ChildrenOf(records, x)
    {
      ChildrenOfComplete(records, x, k);
    }
  }

  /** Under an exact visit, a node has children to visit exactly when
      records derive from it. */
  lemma VisitEmpty(records: seq<Record>, visit: Visit, x: Record)
    requires VisitsExactly(records, visit)
    ensures visit(x) == [] <==> ChildrenOf(records, x) == []
  {
    if ChildrenOf(records, x) != [] {
      var k := ChildrenOf(records, x)[0];
      assert k in ChildrenOf(records, x);
      assert k in visit(x);
    }
    if visit(x) != [] {
      var k := visit(x)[0];
      ChildrenOfComplete(records, x, k);
    }
  }

  /** Termination measure of the walks: the distance from `x` down to the
      deepest record. Going to a child makes it smaller. */
  function Measure(records: seq<Record>, x: Record): nat
  {
    var h := Height(records);
    if Depth(x) <= h then h - Depth(x) else 0
  }

  function SelfIfConcrete(x: Record): seq<Record>
  {
    if x.isAbstract then [] else [x]
  }

  /** The concrete records of the subtree of `x`, in preorder, children
      visited as `visit` says. */
  function Walk(records: seq<Record>, visit: Visit, x: Record): seq<Record>
    requires VisitsChildren(records, visit)
    decreases Measure(records, x), 1
  {
    SelfIfConcrete(x) + WalkAll(records, visit, x, visit(x))
  }

  /** The walks of `kids`, one after the other. */
  function WalkAll(records: seq<Record>, visit: Visit, parent: Record, kids: seq<Record>): seq<Record>
    requires VisitsChildren(records, visit)
    requires forall k | k in kids :: k in records && k.base == Some(parent)
    decreases Measure(records, parent), 0, |kids|
  {
    if kids == [] then []
    else Walk(records, visit, kids[0]) + WalkAll(records, visit, parent, kids[1..])
  }

  /** The walks of a suffix of `kids`: its first child's walk, then the rest. */
  lemma WalkAllFrom(records: seq<Record>, visit: Visit, parent: Record, kids: seq<Record>, i: nat)
    requires VisitsChildren(records, visit)
    requires forall k | k in kids :: k in records && k.base == Some(parent)
    requires i < |kids|
    ensures WalkAll(records, visit, parent, kids[i..])
      == Walk(records, visit, kids[i]) + WalkAll(records, visit, parent, kids[i + 1..])
  {
    assert kids[i..][0] == kids[i];
    assert kids[i..][1..] == kids[i + 1..];
  }

  /** A walk meets only concrete records of the subtree. */
  lemma {:induction false} WalkSound(records: seq<Record>, visit: Visit, x: Record, y: Record)
    requires VisitsChildren(records, visit)
    requires y in Walk(records, visit, x)
    ensures !y.isAbstract && InSubtree(records, x, y)
    decreases Measure(records, x), 1
  {
    if y !in SelfIfConcrete(x) {
      WalkAllSound(records, visit, x, visit(x), y);
    }
  }

  lemma {:induction false} WalkAllSound(records: seq<Record>, visit: Visit, parent: Record, kids: seq<Record>, y: Record)
    requires VisitsChildren(records, visit)
    requires forall k | k in kids :: k in records && k.base == Some(parent)
    requires y in WalkAll(records, visit, parent, kids)
    ensures !y.isAbstract && InSubtree(records, parent, y)
    ensures AncestorAt(y, Depth(parent) + 1) in kids
    decreases Measure(records, parent), 0, |kids|
  {
    var k := kids[0];
    assert WalkAll(records, visit, parent, kids) == Walk(records, visit, k) + WalkAll(records, visit, parent, kids[1..]);
    if y in Walk(records, visit, k) {
      WalkSound(records, visit, k, y);
      InSubtreeOfChild(records, parent, k, y);
      InSubtreeAncestor(records, k, y);
      assert Depth(k) == Depth(parent) + 1;
    } else {
      WalkAllSound(records, visit, parent, kids[1..], y);
      InTail(kids, AncestorAt(y, Depth(parent) + 1));
    }
  }

  lemma {:induction false} WalkAllSplit(records: seq<Record>, visit: Visit, parent: Record, kids: seq<Record>, y: Record)
    returns (pre: seq<Record>, post: seq<Record>)
    requires VisitsChildren(records, visit)
    requires forall k | k in kids :: k in records && k.base == Some(parent)
    requires y in kids
    ensures WalkAll(records, visit, parent, kids) == pre + Walk(records, visit, y) + post
    decreases |kids|
  {
    if kids[0] == y {
      pre, post := [], WalkAll(records, visit, parent, kids[1..]);
    } else {
      var pre1, post1 := WalkAllSplit(records, visit, parent, kids[1..], y);
      var w0, wy := Walk(records, visit, kids[0]), Walk(records, visit, y);
      assert WalkAll(records, visit, parent, kids) == w0 + (pre1 + wy + post1);
      pre, post := w0 + pre1, post1;
      Append4(w0, pre1, wy, post1);
    }
  }

  /** The walk of any node of the subtree is one contiguous stretch of the
      walk of the whole subtree. */
  lemma {:induction false} WalkSplit(records: seq<Record>, visit: Visit, x: Record, y: Record)
    returns (pre: seq<Record>, post: seq<Record>)
    requires VisitsExactly(records, visit)
    requires InSubtree(records, x, y)
    ensures Walk(records, visit, x) == pre + Walk(records, visit, y) + post
    decreases y
  {
    if y == x {
      pre, post := [], [];
    } else {
      var p := y.base.value;
      var pre1, post1 := WalkSplit(records, visit, x, p);
      var kids := visit(p);
      assert y in kids;
      var pre2, post2 := WalkAllSplit(records, visit, p, kids, y);
      var wp, wy := Walk(records, visit, p), Walk(records, visit, y);
      assert wp == SelfIfConcrete(p) + (pre2 + wy + post2);
      pre, post := pre1 + SelfIfConcrete(p) + pre2, post2 + post1;
      Regroup(pre1, SelfIfConcrete(p), pre2, wy, post2, post1);
    }
  }

  /** A walk meets every concrete record of the subtree. */
  lemma WalkComplete(records: seq<Record>, visit: Visit, x: Record, y: Record)
    requires VisitsExactly(records, visit)
    requires InSubtree(records, x, y) && !y.isAbstract
    ensures y in Walk(records, visit, x)
  {
    var pre, post := WalkSplit(records, visit, x, y);
    assert Walk(records, visit, y)[0] == y;
  }

  /** A walk meets no record twice. */
  lemma {:induction false} WalkDistinct(records: seq<Record>, visit: Visit, x: Record)
    requires VisitsExactly(records, visit)
    ensures Distinct(Walk(records, visit, x))
    decreases Measure(records, x), 1
  {
    var kids := visit(x);
    WalkAllDistinct(records, visit, x, kids);
    forall y | y in WalkAll(records, visit, x, kids)
      ensures y != x
    {
      WalkAllSound(records, visit, x, kids, y);
      assert Depth(AncestorAt(y, Depth(x) + 1)) == Depth(x) + 1;
    }
    DistinctConcat(SelfIfConcrete(x), WalkAll(records, visit, x, kids));
  }

  lemma {:induction false} WalkAllDistinct(records: seq<Record>, visit: Visit, parent: Record, kids: seq<Record>)
    requires VisitsExactly(records, visit)
    requires forall k | k in kids :: k in records && k.base == Some(parent)
    requires Distinct(kids)
    ensures Distinct(WalkAll(records, visit, parent, kids))
    decreases Measure(records, parent), 0, |kids|
  {
    if kids != [] {
      var k := kids[0];
      var wk, wr := Walk(records, visit, k), WalkAll(records, visit, parent, kids[1..]);
      assert WalkAll(records, visit, parent, kids) == wk + wr;
      DistinctTail(kids);
      WalkDistinct(records, visit, k);
      WalkAllDistinct(records, visit, parent, kids[1..]);
      forall y | y in wk
        ensures y !in wr
      {
        WalkOutsideSiblings(records, visit, parent, k, kids[1..], y);
      }
      DistinctConcat(wk, wr);
    }
  }

  /** A node of one child's walk is in no walk of its other siblings. */
  lemma WalkOutsideSiblings(records: seq<Record>, visit: Visit, parent: Record, k: Record, rest: seq<Record>, y: Record)
    requires VisitsChildren(records, visit)
    requires forall z | z in rest :: z in records && z.base == Some(parent)
    requires k in records && k.base == Some(parent) && k !in rest
    requires y in Walk(records, visit, k)
    ensures y !in WalkAll(records, visit, parent, rest)
  {
    WalkSound(records, visit, k, y);
    InSubtreeAncestor(records, k, y);
    assert Depth(k) == Depth(parent) + 1;
    if y in WalkAll(records, visit, parent, rest) {
      WalkAllSound(records, visit, parent, rest, y);
    }
  }

  /** The walk of `x` holds exactly the concrete records of its subtree. */
  lemma WalkMembers(records: seq<Record>, visit: Visit, x: Record, y: Record)
    requires VisitsExactly(records, visit)
    ensures y in Walk(records, visit, x) <==> !y.isAbstract && InSubtree(records, x, y)
  {
    if y in Walk(records, visit, x) {
      WalkSound(records, visit, x, y);
    }
    if !y.isAbstract && InSubtree(records, x, y) {
      WalkComplete(records, visit, x, y);
    }
  }

  /** Numbering the walk of `x`, the nodes of the subtree of `b` are exactly
      those numbered from the first to the last node of `b`'s own walk. */
  lemma RangeOfSubtree(records: seq<Record>, visit: Visit, x: Record, b: Record, y: Record)
    requires VisitsExactly(records, visit)
    requires InSubtree(records, x, b) && Walk(records, visit, b) != []
    requires y in Walk(records, visit, x)
    ensures var o, w := Walk(records, visit, x), Walk(records, visit, b);
      && w[0] in o && w[|w| - 1] in o
      && (IndexOf(o, w[0]) <= IndexOf(o, y) <= IndexOf(o, w[|w| - 1]) <==> InSubtree(records, b, y))
  {
    var o, w := Walk(records, visit, x), Walk(records, visit, b);
    var pre, post := WalkSplit(records, visit, x, b);
    assert y in w <==> InSubtree(records, b, y) by {
      WalkSound(records, visit, x, y);
      WalkMembers(records, visit, b, y);
    }
    assert && w[0] in o && w[|w| - 1] in o
           && (y in w <==> IndexOf(o, w[0]) <= IndexOf(o, y) <= IndexOf(o, w[|w| - 1])) by {
      WalkDistinct(records, visit, x);
      StretchIndices(o, pre, w, post, y);
    }
  }
}
