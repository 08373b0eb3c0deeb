/** The definitions the record store supplies for one hierarchy, and the
    diagnostics that end a generation run. */
module Records {
  import opened Wrappers

  /** One definition: its unique name, the record its `Base` field names
      (absent only for a root) and its `Abstract` bit. The base is the record
      itself, as the store hands it out, so every parent chain is finite: a
      base has to be defined before the records that derive from it. */
  datatype Record = Record(name: string, base: Option<Record>, isAbstract: bool)

  /** The fatal conditions of a generation run; each one aborts the run. */
  datatype FatalError =
    | MultipleRootNodes(record: string, hierarchy: string)
    | NoRootNode(hierarchy: string)
    | AbstractNodeHasNoChildren(node: string)

  /** Number of bases above `r`. */
  function Depth(r: Record): nat
  {
    match r.base
    case None => 0
    case Some(b) => 1 + Depth(b)
  }

  /** The largest depth of a record of `records`. */
  function Height(records: seq<Record>): (h: nat)
    ensures forall r | r in records :: Depth(r) <= h
  {
    if records == [] then 0
    else
      var h := Height(records[1..]);
      assert forall r | r in records :: r == records[0] || r in records[1..];
      if Depth(records[0]) <= h then h else Depth(records[0])
  }

  /** Records of the store carry pairwise distinct names. */
  ghost predicate UniqueNames(records: seq<Record>)
  {
    forall i, j | 0 <= i < |records| && 0 <= j < |records| && records[i].name == records[j].name :: i == j
  }

  ghost predicate Distinct<T>(s: seq<T>)
  {
    forall i, j | 0 <= i < j < |s| :: s[i] != s[j]
  }

  lemma UniqueNamesDistinct(records: seq<Record>)
    requires UniqueNames(records)
    ensures Distinct(records)
  {
  }

  lemma DistinctConcat<T>(a: seq<T>, b: seq<T>)
    requires Distinct(a) && Distinct(b)
    requires forall y | y in a :: y !in b
    ensures Distinct(a + b)
  {
    forall i, j | 0 <= i < j < |a + b|
      ensures (a + b)[i] != (a + b)[j]
    {
      if i < |a| && |a| <= j {
        assert (a + b)[i] in a && (a + b)[j] == b[j - |a|];
      }
    }
  }

  /** The position of the first occurrence of `y` in `s`: the number a
      consumer gives `y` when it numbers `s` from zero. */
  function IndexOf<T(==)>(s: seq<T>, y: T): (i: nat)
    requires y in s
    ensures i < |s| && s[i] == y
    ensures forall j | 0 <= j < i :: s[j] != y
  {
    if s[0] == y then 0 else 1 + IndexOf(s[1..], y)
  }

  lemma IndexOfDistinct<T>(s: seq<T>, i: nat)
    requires Distinct(s) && i < |s|
    ensures IndexOf(s, s[i]) == i
  {
  }

  /** In a sequence without repetitions, the elements of a stretch `w` are
      exactly those numbered from `w`'s first element to its last. */
  lemma StretchIndices<T>(s: seq<T>, pre: seq<T>, w: seq<T>, post: seq<T>, y: T)
    requires s == pre + w + post
    requires Distinct(s) && w != [] && y in s
    ensures w[0] in s && w[|w| - 1] in s
    ensures IndexOf(s, w[0]) == |pre|
    ensures IndexOf(s, w[|w| - 1]) == |pre| + |w| - 1
    ensures y in w <==> IndexOf(s, w[0]) <= IndexOf(s, y) <= IndexOf(s, w[|w| - 1])
  {
    assert s[|pre|] == w[0];
    IndexOfDistinct(s, |pre|);
    assert s[|pre| + |w| - 1] == w[|w| - 1];
    IndexOfDistinct(s, |pre| + |w| - 1);
    if y in w {
      var j :| 0 <= j < |w| && w[j] == y;
      assert s[|pre| + j] == y;
      IndexOfDistinct(s, |pre| + j);
    }
  }

  /** The head of a sequence without repeats is not in its tail, which has
      no repeats either. */
  lemma DistinctTail<T>(s: seq<T>)
    requires Distinct(s) && s != []
    ensures Distinct(s[1..]) && s[0] !in s[1..]
  {
  }

  lemma InTail<T>(s: seq<T>, a: T)
    requires s != [] && a in s[1..]
    ensures a in s
  {
  }

  /** The ends of a concatenation whose left part is not empty. */
  lemma ConcatEnds<T>(a: seq<T>, b: seq<T>)
    requires a != []
    ensures (a + b)[0] == a[0]
    ensures (a + b)[|a + b| - 1] == if b == [] then a[|a| - 1] else b[|b| - 1]
  {
  }

  lemma Append3<T>(a: seq<T>, b: seq<T>, c: seq<T>)
    ensures a + b + c == a + (b + c)
  {
  }

  lemma Append4<T>(o: seq<T>, a: seq<T>, b: seq<T>, c: seq<T>)
    ensures o + a + b + c == o + (a + b + c)
  {
  }

  lemma Regroup<T>(a: seq<T>, s: seq<T>, b: seq<T>, w: seq<T>, c: seq<T>, d: seq<T>)
    ensures a + (s + (b + w + c)) + d == (a + s + b) + w + (c + d)
  {
  }

  /** `y` lies in the subtree of `x` that `records` describe: it is `x`, or a
      record of `records` whose base lies in that subtree. */
  predicate InSubtree(records: seq<Record>, x: Record, y: Record)
    decreases y
  {
    y == x || (y in records && y.base.Some? && InSubtree(records, x, y.base.value))
  }

  /** The ancestor of `y` at depth `d` (or `y` itself when it is not deeper). */
  function AncestorAt(y: Record, d: nat): (a: Record)
    ensures Depth(a) == if Depth(y) <= d then Depth(y) else d
    decreases Depth(y)
  {
    if Depth(y) <= d then y else AncestorAt(y.base.value, d)
  }

  /** Every record of a subtree is at least as deep as its top, and the
      subtree's top is its ancestor at that depth. */
  lemma {:induction false} InSubtreeAncestor(records: seq<Record>, x: Record, y: Record)
    requires InSubtree(records, x, y)
    ensures Depth(x) <= Depth(y)
    ensures y != x ==> Depth(x) < Depth(y)
    ensures AncestorAt(y, Depth(x)) == x
    decreases y
  {
    if y != x {
      InSubtreeAncestor(records, x, y.base.value);
    }
  }

  /** A child's subtree is part of its parent's. */
  lemma {:induction false} InSubtreeOfChild(records: seq<Record>, x: Record, k: Record, y: Record)
    requires k in records && k.base == Some(x)
    requires InSubtree(records, k, y)
    ensures InSubtree(records, x, y)
    decreases y
  {
    if y != k {
      InSubtreeOfChild(records, x, k, y.base.value);
    }
  }
}
