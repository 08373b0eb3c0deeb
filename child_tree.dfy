/** The parent-to-children multimap of a hierarchy and the search for its
    single root. */
module ChildTree {
  import opened Wrappers
  import opened Records

  /** The children of `p`: the records whose base is `p`, in the order the
      record store lists them (the multimap keeps insertion order among equal
      keys). */
  function ChildrenOf(records: seq<Record>, p: Record): (kids: seq<Record>)
    ensures forall k | k in kids :: k in records && k.base == Some(p)
  {
    if records == [] then []
    else
      var init, last := records[..|records| - 1], records[|records| - 1];
      assert forall r | r in init :: r in records;
      ChildrenOf(init, p) + (if last.base == Some(p) then [last] else [])
  }

  /** Every record with a base is a child of that base. */
  lemma {:induction false} ChildrenOfComplete(records: seq<Record>, p: Record, k: Record)
    requires k in records && k.base == Some(p)
    ensures k in ChildrenOf(records, p)
  {
    var init := records[..|records| - 1];
    if k != records[|records| - 1] {
      assert records == init + [records[|records| - 1]];
      ChildrenOfComplete(init, p, k);
    }
  }

  /** Children of one base taken from records with distinct names carry
      distinct names. */
  lemma {:induction false} ChildrenUniqueNames(records: seq<Record>, p: Record)
    requires UniqueNames(records)
    ensures UniqueNames(ChildrenOf(records, p))
  {
    if records != [] {
      var init, last := records[..|records| - 1], records[|records| - 1];
      assert UniqueNames(init);
      ChildrenUniqueNames(init, p);
      forall k | k in ChildrenOf(init, p)
        ensures k.name != last.name
      {
        var j :| 0 <= j < |init| && init[j] == k;
        assert records[j] == k;
      }
    }
  }

  /** `a` is `b` with some elements left out. */
  ghost predicate IsSubsequence<T>(a: seq<T>, b: seq<T>)
    decreases |b|
  {
    if a == [] then true
    else if b == [] then false
    else if a[|a| - 1] == b[|b| - 1] then IsSubsequence(a[..|a| - 1], b[..|b| - 1])
    else IsSubsequence(a, b[..|b| - 1])
  }

  /** The children are listed in the order of the records themselves. */
  lemma {:induction false} ChildrenInRecordOrder(records: seq<Record>, p: Record)
    ensures IsSubsequence(ChildrenOf(records, p), records)
    decreases |records|
  {
    if records != [] {
      var init, last := records[..|records| - 1], records[|records| - 1];
      var kids := ChildrenOf(records, p);
      ChildrenInRecordOrder(init, p);
      if last.base == Some(p) {
        assert kids[..|kids| - 1] == ChildrenOf(init, p);
      } else {
        assert kids == ChildrenOf(init, p);
        if kids != [] {
          assert kids[|kids| - 1] in kids;
        }
      }
    }
  }

  /** The multimap from a node to the nodes derived from it. */
  type Tree = map<Record, seq<Record>>

  /** The children a lookup of `p` yields (none when `p` is no key). */
  function Lookup(tree: Tree, p: Record): seq<Record>
  {
    if p in tree then tree[p] else []
  }

  /** `tree` holds, for every node, exactly its children among `records`, in
      their order. */
  ghost predicate Represents(tree: Tree, records: seq<Record>)
  {
    forall p :: Lookup(tree, p) == ChildrenOf(records, p)
  }

  /** One step of the loop that fills the multimap: a record with a base is
      inserted after the base's other children. */
  function AddChild(tree: Tree, r: Record): Tree
  {
    if r.base.Some? then tree[r.base.value := Lookup(tree, r.base.value) + [r]] else tree
  }

  lemma EmptyTreeRepresents()
    ensures Represents(map[], [])
  {
  }

  /** Inserting the next record keeps the multimap in step with the records
      seen so far. */
  lemma AddChildRepresents(tree: Tree, records: seq<Record>, r: Record)
    requires Represents(tree, records)
    ensures Represents(AddChild(tree, r), records + [r])
  {
    var s := records + [r];
    assert s[..|s| - 1] == records;
    forall p
      ensures Lookup(AddChild(tree, r), p) == ChildrenOf(s, p)
    {
      assert ChildrenOf(s, p) == ChildrenOf(records, p) + (if r.base == Some(p) then [r] else []);
    }
  }

  /** The same step, taken over the next record of a prefix of the store. */
  lemma AddChildRepresentsPrefix(tree: Tree, records: seq<Record>, i: nat)
    requires i < |records|
    requires Represents(tree, records[..i])
    ensures Represents(AddChild(tree, records[i]), records[..i + 1])
  {
    assert records[..i] + [records[i]] == records[..i + 1];
    AddChildRepresents(tree, records[..i], records[i]);
  }

  /** The records without a base, in the order of the store. */
  function Roots(records: seq<Record>): (roots: seq<Record>)
    ensures forall r | r in roots :: r in records && r.base.None?
    ensures forall r | r in records && r.base.None? :: r in roots
  {
    if records == [] then []
    else
      var init, last := records[..|records| - 1], records[|records| - 1];
      assert forall r | r in init :: r in records;
      assert forall r | r in records :: r in init || r == last;
      Roots(init) + (if last.base.None? then [last] else [])
  }

  /** The root search of the tree-building loop over `records`, record by
      record: a record without a base becomes the root unless one was found
      before, in which case the run stops naming the second one. */
  function ScanRoots(records: seq<Record>, hierarchy: string): (r: Result<Option<Record>, FatalError>)
  {
    if records == [] then Ok(None)
    else
      var init, last := records[..|records| - 1], records[|records| - 1];
      match ScanRoots(init, hierarchy)
      case Err(e) => Err(e)
      case Ok(root) =>
        if last.base.Some? then Ok(root)
        else if root.Some? then Err(MultipleRootNodes(last.name, hierarchy))
        else Ok(Some(last))
  }

  /** The root of the hierarchy, or the fatal error that ends the run. */
  function DeriveRoot(records: seq<Record>, hierarchy: string): (r: Result<Record, FatalError>)
    ensures r.Ok? ==> r.value in records && r.value.base.None?
    ensures r.Err? ==> r.error == NoRootNode(hierarchy) || (r.error.MultipleRootNodes? && r.error.hierarchy == hierarchy)
  {
    ScanRootsCases(records, hierarchy);
    match ScanRoots(records, hierarchy)
    case Err(e) => Err(e)
    case Ok(None) => Err(NoRootNode(hierarchy))
    case Ok(Some(r)) => Ok(r)
  }

  lemma {:induction false} ScanRootsCases(records: seq<Record>, hierarchy: string)
    ensures var roots := Roots(records);
      ScanRoots(records, hierarchy) ==
        if |roots| == 0 then Ok(None)
        else if |roots| == 1 then Ok(Some(roots[0]))
        else Err(MultipleRootNodes(roots[1].name, hierarchy))
  {
    if records != [] {
      var init := records[..|records| - 1];
      ScanRootsCases(init, hierarchy);
      assert Roots(records)[..|Roots(init)|] == Roots(init);
    }
  }

  /** The tree has a root exactly when one record lacks a base; none is a
      "didn't find root node" error, and a second one a "multiple root
      nodes" error naming it. */
  lemma DeriveRootCases(records: seq<Record>, hierarchy: string)
    ensures |Roots(records)| == 1 <==> DeriveRoot(records, hierarchy).Ok?
    ensures |Roots(records)| == 1 ==> DeriveRoot(records, hierarchy) == Ok(Roots(records)[0])
    ensures |Roots(records)| == 0 ==> DeriveRoot(records, hierarchy) == Err(NoRootNode(hierarchy))
    ensures |Roots(records)| >= 2 ==>
      DeriveRoot(records, hierarchy) == Err(MultipleRootNodes(Roots(records)[1].name, hierarchy))
  {
    ScanRootsCases(records, hierarchy);
  }
}
