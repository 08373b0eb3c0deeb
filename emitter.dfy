/** The emitter of a node table: it derives the tree of a hierarchy from
    its records, then writes the table depth-first, children in sibling
    order, with a range marker after every node that has children. */
module ClangASTNodes {
  import opened Wrappers
  import opened Records
  import opened Names
  import opened ChildTree
  import opened SiblingOrder
  import opened Walks
  import opened Output
  import opened NodeTable

  /** The lines written before the table: fallback definitions of the
      abstract wrapper and of both kinds of range marker. */
  function Preamble(hier: string): seq<Line>
  {
    [IfNotDefined("ABSTRACT_" + hier), Define("ABSTRACT_" + hier, "(Type)", "Type"), EndIf,
     IfNotDefined(hier + "_RANGE"), Define(hier + "_RANGE", "(Base, First, Last)", ""), EndIf, Blank,
     IfNotDefined("LAST_" + hier + "_RANGE"),
     Define("LAST_" + hier + "_RANGE", "(Base, First, Last)", hier + "_RANGE(Base, First, Last)"), EndIf, Blank]
  }

  /** The lines written after the table: the macros a consumer defined and
      the preamble's ones are all undefined. */
  function Postamble(hier: string): seq<Line>
  {
    [Undef(hier), Undef(hier + "_RANGE"), Undef("LAST_" + hier + "_RANGE"), Undef("ABSTRACT_" + hier)]
  }

  /** The node table of the hierarchy `nodeClassName`, or the fatal error
      that stops the run. */
  function Table(records: seq<Record>, nodeClassName: string, suffix: string, prio: set<Record>): Result<seq<Line>, FatalError>
  {
    match DeriveRoot(records, nodeClassName)
    case Err(e) => Err(e)
    case Ok(root) =>
      var c := Config(records, SortedOrder(records, prio), suffix, root);
      match Emit(c, root)
      case Err(e) => Err(e)
      case Ok(e) => Ok(Preamble(c.Hier()) + e.lines + Postamble(c.Hier()))
  }

  /** Every definition of the preamble is a fallback: it sits alone inside
      an `#ifndef` of its own macro, so a consumer's definition wins. */
  lemma PreambleFallbacks(hier: string)
    ensures var p := Preamble(hier);
      forall i | 0 <= i < |p| && p[i].Define? ::
        0 < i && p[i - 1] == IfNotDefined(p[i].macro) && i + 1 < |p| && p[i + 1] == EndIf
  {
  }

  /** The postamble undefines every macro the preamble defines, and the
      node macro of the root, which a consumer defines. */
  lemma PostambleUndefinesPreamble(hier: string)
    ensures forall l | l in Preamble(hier) && l.Define? :: Undef(l.macro) in Postamble(hier)
    ensures Undef(hier) in Postamble(hier)
  {
  }

  /** The table exists exactly when one record of the hierarchy lacks a
      base and no abstract record below that root is a leaf. Otherwise the
      run stops with a fatal error: no root, a second root (named), or an
      abstract leaf of the root's subtree (named). */
  lemma TableOutcome(records: seq<Record>, nodeClassName: string, suffix: string, prio: set<Record>)
    requires UniqueNames(records)
    ensures var t, roots := Table(records, nodeClassName, suffix, prio), Roots(records);
      && (t.Ok? <==> |roots| == 1 && NoAbstractLeaf(records, roots[0]))
      && (|roots| == 0 ==> t == Err(NoRootNode(nodeClassName)))
      && (|roots| >= 2 ==> t == Err(MultipleRootNodes(roots[1].name, nodeClassName)))
      && (|roots| == 1 && t.Err? ==>
            exists y | InSubtree(records, roots[0], y) && y.isAbstract && ChildrenOf(records, y) == [] ::
              t.error == AbstractNodeHasNoChildren(y.name))
  {
    var roots := Roots(records);
    DeriveRootCases(records, nodeClassName);
    if |roots| == 1 {
      var c := Config(records, SortedOrder(records, prio), suffix, roots[0]);
      SortedOrderVisitsExactly(records, prio);
      EmitSucceedsIff(c, c.root);
      if Emit(c, c.root).Err? {
        var y := EmitErrorNode(c, c.root);
      }
    }
  }

  /** Once the root is found, the table is the emission of its subtree
      between the preamble and the postamble, or that emission's error. */
  lemma TableOfRoot(records: seq<Record>, nodeClassName: string, suffix: string, prio: set<Record>, root: Record)
    requires DeriveRoot(records, nodeClassName) == Ok(root)
    ensures var c := Config(records, SortedOrder(records, prio), suffix, root);
      var t, e := Table(records, nodeClassName, suffix, prio), Emit(c, c.root);
      && (t.Ok? <==> e.Ok?)
      && (e.Err? ==> t.error == e.error)
      && (e.Ok? ==> t.value == Preamble(c.Hier()) + e.value.lines + Postamble(c.Hier()))
  {
  }

  /** The loop state `rest` of a loop over children, after the lines `done`
      were written. */
  function Resume(done: seq<Line>, rest: Result<Progress, FatalError>): Result<Progress, FatalError>
  {
    match rest
    case Err(e) => Err(e)
    case Ok(p) => Ok(Progress(done + p.lines, p.first, p.last))
  }

  class ClangASTNodesEmitter {
    /** The records of the node class, in the order of the record store. */
    const records: seq<Record>
    const nodeClassName: string
    const baseSuffix: string
    const prioritized: set<Record>
    /** The multimap from a node to the nodes derived from it. */
    var tree: Tree
    var root: Option<Record>

    constructor (records: seq<Record>, nodeClassName: string, baseSuffix: string, prioritizedRecords: seq<Record>)
      ensures this.records == records && this.nodeClassName == nodeClassName && this.baseSuffix == baseSuffix
      ensures prioritized == set r | r in prioritizedRecords
      ensures tree == map[] && root == None
    {
      this.records := records;
      this.nodeClassName := nodeClassName;
      this.baseSuffix := baseSuffix;
      prioritized := set r | r in prioritizedRecords;
      tree := map[];
      root := None;
    }

    /** The tree has been derived: it holds the children of every node. */
    ghost predicate Derived()
      reads this
    {
      root.Some? && Represents(tree, records)
    }

    function Cfg(): (c: Config)
      reads this
      requires root.Some?
      ensures c.Valid()
    {
      Config(records, SortedOrder(records, prioritized), baseSuffix, root.value)
    }

    /** The macro-ised name of the root. */
    function MacroHierarchyName(): (h: string)
      reads this
      requires root.Some?
      ensures h == MacroName(root.value.name)
    {
      Cfg().Hier()
    }

    /** Inserts every record with a base under its base and finds the one
        record without a base: the root. */
    method DeriveChildTree() returns (r: Result<Record, FatalError>)
      requires root.None? && tree == map[]
      modifies this
      ensures r == DeriveRoot(records, nodeClassName)
      ensures r.Ok? ==> root == Some(r.value) && Derived()
    {
      EmptyTreeRepresents();
      var i := 0;
      while i < |records|
        invariant 0 <= i <= |records|
        invariant Represents(tree, records[..i])
        invariant ScanRoots(records[..i], nodeClassName) == Ok(root)
      {
        var err := DeriveTurn(i);
        if err.Some? {
          ScanRootsErrStays(records, i + 1, nodeClassName);
          return Err(err.value);
        }
        i := i + 1;
      }
      assert records[..i] == records;
      if root.None? {
        return Err(NoRootNode(nodeClassName));
      }
      return Ok(root.value);
    }

    /** One turn of the loop of `DeriveChildTree`: the record at `i` is
        inserted under its base, becomes the root, or, as a second record
        without a base, stops the run. */
    method DeriveTurn(i: nat) returns (err: Option<FatalError>)
      requires i < |records|
      requires Represents(tree, records[..i]) && ScanRoots(records[..i], nodeClassName) == Ok(root)
      modifies this
      ensures err.None? ==> Represents(tree, records[..i + 1]) && ScanRoots(records[..i + 1], nodeClassName) == Ok(root)
      ensures err.Some? ==> ScanRoots(records[..i + 1], nodeClassName) == Err(err.value)
    {
      var rec := records[i];
      DeriveStep(tree, records, i, root, nodeClassName);
      if rec.base.Some? {
        tree := AddChild(tree, rec);
      } else if root.Some? {
        return Some(MultipleRootNodes(rec.name, nodeClassName));
      } else {
        root := Some(rec);
      }
      return None;
    }

    /** Writes the lines for the children of `base` and its range marker,
        and yields the first and last concrete node of its subtree. */
    method EmitNode(os: OutputStream, base: Record) returns (r: Result<(Record, Record), FatalError>)
      requires Derived()
      modifies os
      ensures var e := Emit(Cfg(), base);
        && (r.Ok? <==> e.Ok?)
        && (r.Err? ==> r.error == e.error)
        && (r.Ok? ==> (r.value == (e.value.first, e.value.last)
                       && os.lines == old(os.lines) + e.value.lines))
      decreases Measure(records, base), 2
    {
      var children := Lookup(tree, base);
      assert children == ChildrenOf(records, base);
      var hasChildren := children != [];
      var self := if base.isAbstract then None else Some(base);
      var sorted := SortedChildren(prioritized, children);
      SortChildrenMembers(prioritized, children);
      var range := WriteChildren(os, base, sorted, self);
      ghost var c, whole := Cfg(), EmitChildren(Cfg(), base, sorted, self, self);
      assert sorted == c.visit(base);
      EmitFromLoop(c, base, sorted, whole);
      if range.Err? {
        return Err(range.error);
      }
      var (first, last) := range.value;
      if first.None? {
        return Err(AbstractNodeHasNoChildren(base.name));
      }
      ghost var done, marker := whole.value.lines, RangeLines(c, base, first.value, last.value);
      MarkerLines(c, base, hasChildren, first.value, last.value);
      if hasChildren {
        os.WriteLines([RangeMarker(base == root.value, base, first.value, last.value), Blank]);
      } else {
        assert done + marker == done;
      }
      Append3(old(os.lines), done, marker);
      return Ok((first.value, last.value));
    }

    /** The loop of `EmitNode` over the sorted children `kids` of `base`:
        each child's fallback definition, invocation and subtree, then the
        child's macro undefined; the range starts at `self` and grows with
        every child. */
    method WriteChildren(os: OutputStream, base: Record, kids: seq<Record>, self: Option<Record>)
      returns (r: Result<(Option<Record>, Option<Record>), FatalError>)
      requires Derived()
      requires forall k | k in kids :: k in records && k.base == Some(base)
      modifies os
      ensures var p := EmitChildren(Cfg(), base, kids, self, self);
        && (r.Ok? <==> p.Ok?)
        && (r.Err? ==> r.error == p.error)
        && (r.Ok? ==> (r.value == (p.value.first, p.value.last)
                       && os.lines == old(os.lines) + p.value.lines))
      decreases Measure(records, base), 1
    {
      var c := Cfg();
      var first, last := self, self;
      ghost var whole := EmitChildren(c, base, kids, self, self);
      ghost var done: seq<Line> := [];
      LoopStart(c, base, kids, self);
      var i := 0;
      while i < |kids|
        invariant 0 <= i <= |kids|
        invariant os.lines == old(os.lines) + done
        invariant whole == Resume(done, EmitChildren(c, base, kids[i..], first, last))
      {
        var child := kids[i];
        LoopTurn(c, base, kids, i, first, last, done, whole);
        var sub := WriteChild(os, base, child);
        if sub.Err? {
          return Err(sub.error);
        }
        ghost var e := Emit(c, child).value;
        if first.None? {
          first := Some(sub.value.0);
        }
        last := Some(sub.value.1);
        Append3(old(os.lines), done, ChildHead(c, base, child) + e.lines + ChildTail(child));
        done := done + (ChildHead(c, base, child) + e.lines + ChildTail(child));
        i := i + 1;
      }
      LoopEnd(c, base, kids, i, first, last, done, whole);
      return Ok((first, last));
    }

    /** One turn of the loop of `EmitNode`: the fallback definition and the
        invocation of `child`, its subtree, then its macro undefined. */
    method WriteChild(os: OutputStream, base: Record, child: Record) returns (r: Result<(Record, Record), FatalError>)
      requires Derived()
      requires child in records && child.base == Some(base)
      modifies os
      ensures var e := Emit(Cfg(), child);
        && (r.Ok? <==> e.Ok?)
        && (r.Err? ==> r.error == e.error)
        && (r.Ok? ==> (r.value == (e.value.first, e.value.last)
                       && os.lines == old(os.lines) + (ChildHead(Cfg(), base, child) + e.value.lines + ChildTail(child))))
      decreases Measure(records, base), 0
    {
      os.WriteLines(ChildHead(Cfg(), base, child));
      r := EmitNode(os, child);
      if r.Ok? {
        os.WriteLines(ChildTail(child));
        Append4(old(os.lines), ChildHead(Cfg(), base, child), Emit(Cfg(), child).value.lines, ChildTail(child));
      }
    }

    /** Writes the preamble, the table of the root's subtree and the
        postamble, once the tree is derived. */
    method EmitTable(os: OutputStream) returns (err: Option<FatalError>)
      requires Derived() && DeriveRoot(records, nodeClassName) == Ok(root.value)
      modifies os
      ensures var t := Table(records, nodeClassName, baseSuffix, prioritized);
        && (err.None? <==> t.Ok?)
        && (t.Err? ==> err == Some(t.error))
        && (t.Ok? ==> os.lines == old(os.lines) + t.value)
    {
      TableOfRoot(records, nodeClassName, baseSuffix, prioritized, root.value);
      var hier := MacroHierarchyName();
      os.WriteLines(Preamble(hier));
      var emitted := EmitNode(os, root.value);
      if emitted.Err? {
        return Some(emitted.error);
      }
      os.WriteLines(Postamble(hier));
      Append4(old(os.lines), Preamble(hier), Emit(Cfg(), root.value).value.lines, Postamble(hier));
      return None;
    }

    /** Derives the tree, then writes the table. */
    method Run(os: OutputStream) returns (err: Option<FatalError>)
      requires root.None? && tree == map[]
      modifies this, os
      ensures var t := Table(records, nodeClassName, baseSuffix, prioritized);
        && (err.None? <==> t.Ok?)
        && (t.Err? ==> err == Some(t.error))
        && (t.Ok? ==> os.lines == old(os.lines) + t.value)
      ensures err.None? ==> root == Some(DeriveRoot(records, nodeClassName).value) && Derived()
    {
      var derived := DeriveChildTree();
      if derived.Err? {
        return Some(derived.error);
      }
      err := EmitTable(os);
    }
  }

  /** One turn of the loop over the children: the child's emission, then
      the rest of the loop from the updated range. */
  lemma ChildStep(c: Config, x: Record, kids: seq<Record>, i: nat, first: Option<Record>, last: Option<Record>)
    requires c.Valid()
    requires forall k | k in kids :: k in c.records && k.base == Some(x)
    requires i < |kids|
    ensures EmitChildren(c, x, kids[i..], first, last) ==
      match Emit(c, kids[i])
      case Err(e) => Err(e)
      case Ok(sub) =>
        Resume(ChildHead(c, x, kids[i]) + sub.lines + ChildTail(kids[i]),
               EmitChildren(c, x, kids[i + 1..], if first.Some? then first else Some(sub.first), Some(sub.last)))
  {
    assert kids[i..][0] == kids[i];
    assert kids[i..][1..] == kids[i + 1..];
  }

  /** The loop state before the first turn. */
  lemma LoopStart(c: Config, x: Record, kids: seq<Record>, self: Option<Record>)
    requires c.Valid()
    requires forall k | k in kids :: k in c.records && k.base == Some(x)
    ensures EmitChildren(c, x, kids, self, self) == Resume([], EmitChildren(c, x, kids[0..], self, self))
  {
    assert kids[0..] == kids;
    ResumeNothing(EmitChildren(c, x, kids, self, self));
  }

  /** The loop state after the turn for child `kids[i]`, or the error that
      child's emission stops the loop with. */
  lemma LoopTurn(c: Config, x: Record, kids: seq<Record>, i: nat, first: Option<Record>, last: Option<Record>,
                 done: seq<Line>, whole: Result<Progress, FatalError>)
    requires c.Valid()
    requires forall k | k in kids :: k in c.records && k.base == Some(x)
    requires i < |kids|
    requires whole == Resume(done, EmitChildren(c, x, kids[i..], first, last))
    ensures Emit(c, kids[i]).Err? ==> whole == Err(Emit(c, kids[i]).error)
    ensures Emit(c, kids[i]).Ok? ==>
      var sub := Emit(c, kids[i]).value;
      whole == Resume(done + (ChildHead(c, x, kids[i]) + sub.lines + ChildTail(kids[i])),
                      EmitChildren(c, x, kids[i + 1..], if first.Some? then first else Some(sub.first), Some(sub.last)))
  {
    ChildStep(c, x, kids, i, first, last);
    if Emit(c, kids[i]).Ok? {
      var sub := Emit(c, kids[i]).value;
      var rest := EmitChildren(c, x, kids[i + 1..], if first.Some? then first else Some(sub.first), Some(sub.last));
      ResumeStep(done, ChildHead(c, x, kids[i]) + sub.lines + ChildTail(kids[i]), rest);
    }
  }

  /** The loop state after the last turn. */
  lemma LoopEnd(c: Config, x: Record, kids: seq<Record>, i: nat, first: Option<Record>, last: Option<Record>,
                done: seq<Line>, whole: Result<Progress, FatalError>)
    requires c.Valid()
    requires forall k | k in kids :: k in c.records && k.base == Some(x)
    requires i == |kids|
    requires whole == Resume(done, EmitChildren(c, x, kids[i..], first, last))
    ensures whole == Ok(Progress(done, first, last))
  {
    assert kids[i..] == [];
    assert done + [] == done;
  }

  /** The emission of a subtree in terms of the loop over its children: the
      loop's error, the missing range, or the loop's lines and the range
      marker. */
  lemma EmitFromLoop(c: Config, x: Record, kids: seq<Record>, whole: Result<Progress, FatalError>)
    requires c.Valid() && kids == c.visit(x)
    requires whole == EmitChildren(c, x, kids, if x.isAbstract then None else Some(x), if x.isAbstract then None else Some(x))
    ensures whole.Err? ==> Emit(c, x) == Err(whole.error)
    ensures whole.Ok? && whole.value.first.None? ==> Emit(c, x) == Err(AbstractNodeHasNoChildren(x.name))
    ensures whole.Ok? && whole.value.first.Some? ==>
      var p := whole.value;
      && p.last.Some?
      && Emit(c, x) == Ok(Emission(p.lines + RangeLines(c, x, p.first.value, p.last.value), p.first.value, p.last.value))
  {
  }

  /** The range marker is written exactly when the node has children. */
  lemma MarkerLines(c: Config, x: Record, hasChildren: bool, first: Record, last: Record)
    requires hasChildren == (c.visit(x) != [])
    ensures RangeLines(c, x, first, last) == if hasChildren then [RangeMarker(x == c.root, x, first, last), Blank] else []
  {
  }

  lemma ResumeNothing(rest: Result<Progress, FatalError>)
    ensures Resume([], rest) == rest
  {
    if rest.Ok? {
      assert [] + rest.value.lines == rest.value.lines;
    }
  }

  /** The loop state after one more child block was written. */
  lemma ResumeStep(done: seq<Line>, block: seq<Line>, rest: Result<Progress, FatalError>)
    ensures Resume(done, Resume(block, rest)) == Resume(done + block, rest)
  {
    if rest.Ok? {
      assert done + (block + rest.value.lines) == done + block + rest.value.lines;
    }
  }

  /** One turn of the loop that derives the tree: a record with a base is
      inserted under it, a second record without one is an error, and the
      first one is the root. */
  lemma DeriveStep(tree: Tree, records: seq<Record>, i: nat, root: Option<Record>, hierarchy: string)
    requires i < |records|
    requires Represents(tree, records[..i])
    requires ScanRoots(records[..i], hierarchy) == Ok(root)
    ensures records[i].base.Some? ==>
      Represents(AddChild(tree, records[i]), records[..i + 1]) && ScanRoots(records[..i + 1], hierarchy) == Ok(root)
    ensures records[i].base.None? && root.Some? ==>
      ScanRoots(records[..i + 1], hierarchy) == Err(MultipleRootNodes(records[i].name, hierarchy))
    ensures records[i].base.None? && root.None? ==>
      Represents(tree, records[..i + 1]) && ScanRoots(records[..i + 1], hierarchy) == Ok(Some(records[i]))
  {
    ScanRootsPrefix(records, i, hierarchy);
    AddChildRepresentsPrefix(tree, records, i);
  }

  lemma ScanRootsPrefix(records: seq<Record>, i: nat, hierarchy: string)
    requires i < |records|
    ensures ScanRoots(records[..i + 1], hierarchy) ==
      match ScanRoots(records[..i], hierarchy)
      case Err(e) => Err(e)
      case Ok(root) =>
        if records[i].base.Some? then Ok(root)
        else if root.Some? then Err(MultipleRootNodes(records[i].name, hierarchy))
        else Ok(Some(records[i]))
  {
    assert records[..i + 1][..i] == records[..i];
  }

  /** Once the root search stops with an error, scanning more records keeps
      that error. */
  lemma {:induction false} ScanRootsErrStays(records: seq<Record>, n: nat, hierarchy: string)
    requires n <= |records|
    requires ScanRoots(records[..n], hierarchy).Err?
    ensures ScanRoots(records, hierarchy) == ScanRoots(records[..n], hierarchy)
    decreases |records| - n
  {
    if n < |records| {
      assert records[..n + 1][..n] == records[..n];
      ScanRootsErrStays(records, n + 1, hierarchy);
    } else {
      assert records[..n] == records;
    }
  }

  /** Writes the node table of the hierarchy `nodeClassName`, with children
      of the records in `prioritizedRecords` placed first among siblings. */
  method EmitClangASTNodes(records: seq<Record>, os: OutputStream, nodeClassName: string, suffix: string, prioritizedRecords: seq<Record>)
    returns (err: Option<FatalError>)
    modifies os
    ensures var t := Table(records, nodeClassName, suffix, set r | r in prioritizedRecords);
      && (err.None? <==> t.Ok?)
      && (t.Err? ==> err == Some(t.error))
      && (t.Ok? ==> os.lines == old(os.lines) + t.value)
    ensures var t := Table(records, nodeClassName, suffix, set r | r in prioritizedRecords);
      t.Ok? ==>
        var hier := MacroName(DeriveRoot(records, nodeClassName).value.name);
        os.Text(hier) == old(os.Text(hier)) + RenderAll(hier, t.value)
  {
    ghost var before := os.lines;
    var emitter := new ClangASTNodesEmitter(records, nodeClassName, suffix, prioritizedRecords);
    err := emitter.Run(os);
    ghost var t := Table(records, nodeClassName, suffix, set r | r in prioritizedRecords);
    if t.Ok? {
      RenderAllAppend(MacroName(DeriveRoot(records, nodeClassName).value.name), before, t.value);
    }
  }
}
