/** The node table of a hierarchy as a function of its records: the lines
    the depth-first emission writes for a subtree and the range of concrete
    nodes it reports, with the guarantees consumers of the table rely on. */
module NodeTable {
  import opened Wrappers
  import opened Records
  import opened Names
  import opened ChildTree
  import opened SiblingOrder
  import opened Walks
  import opened Output

  /** What an emission works from: the records of the hierarchy, the
      order in which the children of a node are visited, the base suffix
      and the root. */
  datatype Config = Config(records: seq<Record>, visit: Visit, suffix: string, root: Record)
  {
    /** The macro-ised name of the root. */
    function Hier(): string
    {
      MacroName(root.name)
    }

    /** The children visited below a node derive from it. */
    ghost predicate Valid()
    {
      VisitsChildren(records, visit)
    }

    /** Every child of a node is visited below it, once. */
    ghost predicate Exact()
    {
      VisitsExactly(records, visit)
    }
  }

  /** What the emission of a subtree produces: its lines and the first and
      last concrete node of the subtree. */
  datatype Emission = Emission(lines: seq<Line>, first: Record, last: Record)

  /** The state of the loop over the children: lines so far and the range
      found so far (unset until a concrete node is met). */
  datatype Progress = Progress(lines: seq<Line>, first: Option<Record>, last: Option<Record>)

  /** The lines written for child `k` of `x` before its subtree: the
      fallback definition of `k`'s macro to `x`'s, then `k`'s invocation. */
  function ChildHead(c: Config, x: Record, k: Record): seq<Line>
  {
    var m := MacroName(k.name);
    [IfNotDefined(m), Define(m, "(Type, Base)", MacroName(x.name) + "(Type, Base)"), EndIf,
     Invoke(k, BaseName(x, c.root, c.suffix))]
  }

  /** The lines written for child `k` after its subtree. */
  function ChildTail(k: Record): seq<Line>
  {
    [Undef(MacroName(k.name)), Blank]
  }

  /** The emission of the subtree of `x`: the blocks of its children in
      sibling order, then, when `x` has children, its range marker. An
      abstract node whose children yield no concrete node stops the run. */
  function Emit(c: Config, x: Record): (r: Result<Emission, FatalError>)
    requires c.Valid()
    decreases Measure(c.records, x), 1
  {
    var self := if x.isAbstract then None else Some(x);
    match EmitChildren(c, x, c.visit(x), self, self)
    case Err(e) => Err(e)
    case Ok(p) => Finish(c, x, p)
  }

  /** After the loop over the children of `x`: the check that a range was
      found, and the range marker when `x` has children. */
  function Finish(c: Config, x: Record, p: Progress): Result<Emission, FatalError>
    requires p.first.Some? ==> p.last.Some?
  {
    if p.first.None? then Err(AbstractNodeHasNoChildren(x.name))
    else Ok(Emission(p.lines + RangeLines(c, x, p.first.value, p.last.value), p.first.value, p.last.value))
  }

  /** The range marker of `x`, written only when `x` has children; the
      root's is the final one. */
  function RangeLines(c: Config, x: Record, first: Record, last: Record): seq<Line>
  {
    if c.visit(x) != [] then [RangeMarker(x == c.root, x, first, last), Blank] else []
  }

  /** The loop over the children `kids` of `x`, from the range found so far:
      the first range is set once, from the first child, and the last one
      follows every child. */
  function EmitChildren(c: Config, x: Record, kids: seq<Record>, first: Option<Record>, last: Option<Record>): (r: Result<Progress, FatalError>)
    requires c.Valid()
    requires forall k | k in kids :: k in c.records && k.base == Some(x)
    ensures r.Ok? ==> (r.value.first.Some? <==> first.Some? || kids != [])
    ensures r.Ok? ==> (r.value.last.Some? <==> last.Some? || kids != [])
    decreases Measure(c.records, x), 0, |kids|
  {
    if kids == [] then Ok(Progress([], first, last))
    else
      var k := kids[0];
      match Emit(c, k)
      case Err(e) => Err(e)
      case Ok(sub) =>
        var first' := if first.Some? then first else Some(sub.first);
        match EmitChildren(c, x, kids[1..], first', Some(sub.last))
        case Err(e) => Err(e)
        case Ok(rest) => Ok(Progress(ChildHead(c, x, k) + sub.lines + ChildTail(k) + rest.lines, rest.first, rest.last))
  }

  /** The concrete nodes invoked by `ls`, in order: the order in which a
      consumer numbers them. */
  function ConcreteOrder(ls: seq<Line>): seq<Record>
  {
    if ls == [] then []
    else (if ls[0].Invoke? && !ls[0].node.isAbstract then [ls[0].node] else []) + ConcreteOrder(ls[1..])
  }

  lemma {:induction false} ConcreteOrderAppend(a: seq<Line>, b: seq<Line>)
    ensures ConcreteOrder(a + b) == ConcreteOrder(a) + ConcreteOrder(b)
    decreases |a|
  {
    if a == [] {
      assert a + b == b;
    } else {
      assert (a + b)[1..] == a[1..] + b;
      ConcreteOrderAppend(a[1..], b);
    }
  }

  lemma ConcreteOrderSingle(l: Line)
    ensures ConcreteOrder([l]) == if l.Invoke? && !l.node.isAbstract then [l.node] else []
  {
    assert [l][1..] == [];
  }

  lemma ConcreteOrderPair(a: Line, b: Line)
    requires !a.Invoke? && !b.Invoke?
    ensures ConcreteOrder([a, b]) == []
  {
    ConcreteOrderSingle(a);
    ConcreteOrderSingle(b);
    assert [a, b] == [a] + [b];
    ConcreteOrderAppend([a], [b]);
  }

  /** The head of a child's block invokes the child and nothing else. */
  lemma ChildHeadOrder(c: Config, x: Record, k: Record)
    ensures ConcreteOrder(ChildHead(c, x, k)) == SelfIfConcrete(k)
  {
    var h := ChildHead(c, x, k);
    assert h == [h[0], h[1]] + ([h[2]] + [h[3]]);
    ConcreteOrderPair(h[0], h[1]);
    ConcreteOrderSingle(h[2]);
    ConcreteOrderSingle(h[3]);
    ConcreteOrderAppend([h[2]], [h[3]]);
    ConcreteOrderAppend([h[0], h[1]], [h[2]] + [h[3]]);
  }

  lemma ChildBlockOrder(c: Config, x: Record, k: Record, sub: seq<Line>, rest: seq<Line>)
    ensures ConcreteOrder(ChildHead(c, x, k) + sub + ChildTail(k) + rest)
         == SelfIfConcrete(k) + ConcreteOrder(sub) + ConcreteOrder(rest)
  {
    var h, t := ChildHead(c, x, k), ChildTail(k);
    ChildHeadOrder(c, x, k);
    ConcreteOrderPair(t[0], t[1]);
    assert t == [t[0], t[1]];
    ConcreteOrderAppend(h + sub + t, rest);
    ConcreteOrderAppend(h + sub, t);
    ConcreteOrderAppend(h, sub);
  }

  /** The range reported for a subtree is its first and last concrete node
      in preorder, and the concrete nodes the emission invokes are the rest
      of that preorder: the subtree's nodes are numbered contiguously. */
  lemma {:induction false} EmitOrder(c: Config, x: Record)
    requires c.Valid()
    requires Emit(c, x).Ok?
    ensures var e, w := Emit(c, x).value, Walk(c.records, c.visit, x);
      && w != []
      && SelfIfConcrete(x) + ConcreteOrder(e.lines) == w
      && e.first == w[0] && e.last == w[|w| - 1]
    decreases Measure(c.records, x), 1
  {
    var self := if x.isAbstract then None else Some(x);
    var kids := c.visit(x);
    EmitChildrenOrder(c, x, kids, self, self);
    var p := EmitChildren(c, x, kids, self, self).value;
    var marker := RangeLines(c, x, p.first.value, p.last.value);
    assert Emit(c, x).value.lines == p.lines + marker;
    if marker != [] {
      ConcreteOrderPair(marker[0], marker[1]);
    }
    ConcreteOrderAppend(p.lines, marker);
  }

  lemma {:induction false} EmitChildrenOrder(c: Config, x: Record, kids: seq<Record>, first: Option<Record>, last: Option<Record>)
    requires c.Valid()
    requires forall k | k in kids :: k in c.records && k.base == Some(x)
    requires EmitChildren(c, x, kids, first, last).Ok?
    ensures var p, w := EmitChildren(c, x, kids, first, last).value, WalkAll(c.records, c.visit, x, kids);
      && (kids != [] ==> w != [])
      && ConcreteOrder(p.lines) == w
      && p.first == (if first.Some? || w == [] then first else Some(w[0]))
      && p.last == (if w == [] then last else Some(w[|w| - 1]))
    decreases Measure(c.records, x), 0, |kids|
  {
    if kids != [] {
      var k := kids[0];
      var sub := Emit(c, k).value;
      var first' := if first.Some? then first else Some(sub.first);
      var rest := EmitChildren(c, x, kids[1..], first', Some(sub.last)).value;
      var p := EmitChildren(c, x, kids, first, last).value;
      assert p == Progress(ChildHead(c, x, k) + sub.lines + ChildTail(k) + rest.lines, rest.first, rest.last);
      var wk, wr := Walk(c.records, c.visit, k), WalkAll(c.records, c.visit, x, kids[1..]);
      var w := WalkAll(c.records, c.visit, x, kids);
      assert w == wk + wr;
      EmitOrder(c, k);
      EmitChildrenOrder(c, x, kids[1..], first', Some(sub.last));
      assert ConcreteOrder(p.lines) == w by {
        ChildBlockOrder(c, x, k, sub.lines, rest.lines);
      }
      ConcatEnds(wk, wr);
    }
  }

  /** No abstract record of the subtree of `x` is a leaf. */
  ghost predicate NoAbstractLeaf(records: seq<Record>, x: Record)
  {
    forall y | InSubtree(records, x, y) && y.isAbstract :: ChildrenOf(records, y) != []
  }

  /** An abstract record without children stops the emission of its own
      subtree; a record with children, or a concrete one, does not by itself. */
  lemma EmitLocalCheck(c: Config, x: Record)
    requires c.Exact()
    requires Emit(c, x).Ok?
    ensures x.isAbstract ==> ChildrenOf(c.records, x) != []
  {
    VisitEmpty(c.records, c.visit, x);
    var kids := c.visit(x);
  }

  /** When the loop over the children succeeds, every child's emission does. */
  lemma {:induction false} EmitChildrenOkEach(c: Config, x: Record, kids: seq<Record>, first: Option<Record>, last: Option<Record>, k: Record)
    requires c.Valid()
    requires forall k | k in kids :: k in c.records && k.base == Some(x)
    requires EmitChildren(c, x, kids, first, last).Ok?
    requires k in kids
    ensures Emit(c, k).Ok?
    decreases |kids|
  {
    if kids[0] != k {
      var sub := Emit(c, kids[0]).value;
      var first' := if first.Some? then first else Some(sub.first);
      EmitChildrenOkEach(c, x, kids[1..], first', Some(sub.last), k);
    }
  }

  /** When the emission of a subtree succeeds, so does the emission of each
      record in it. */
  lemma {:induction false} EmitOkDescends(c: Config, x: Record, y: Record)
    requires c.Exact()
    requires Emit(c, x).Ok?
    requires InSubtree(c.records, x, y)
    ensures Emit(c, y).Ok?
    decreases y
  {
    if y != x {
      var p := y.base.value;
      EmitOkDescends(c, x, p);
      assert y in c.visit(p);
      var self := if p.isAbstract then None else Some(p);
      EmitChildrenOkEach(c, p, c.visit(p), self, self, y);
    }
  }

  lemma {:induction false} EmitSucceeds(c: Config, x: Record)
    requires c.Exact()
    requires NoAbstractLeaf(c.records, x)
    ensures Emit(c, x).Ok?
    decreases Measure(c.records, x), 1
  {
    VisitEmpty(c.records, c.visit, x);
    var kids := c.visit(x);
    var self := if x.isAbstract then None else Some(x);
    forall k | k in kids
      ensures NoAbstractLeaf(c.records, k)
    {
      forall y | InSubtree(c.records, k, y) && y.isAbstract
        ensures ChildrenOf(c.records, y) != []
      {
        InSubtreeOfChild(c.records, x, k, y);
      }
    }
    EmitChildrenSucceed(c, x, kids, self, self);
    assert InSubtree(c.records, x, x);
  }

  lemma {:induction false} EmitChildrenSucceed(c: Config, x: Record, kids: seq<Record>, first: Option<Record>, last: Option<Record>)
    requires c.Exact()
    requires forall k | k in kids :: k in c.records && k.base == Some(x)
    requires forall k | k in kids :: NoAbstractLeaf(c.records, k)
    ensures EmitChildren(c, x, kids, first, last).Ok?
    decreases Measure(c.records, x), 0, |kids|
  {
    if kids != [] {
      var k := kids[0];
      EmitSucceeds(c, k);
      var sub := Emit(c, k).value;
      var first' := if first.Some? then first else Some(sub.first);
      EmitChildrenSucceed(c, x, kids[1..], first', Some(sub.last));
    }
  }

  /** The emission of a subtree succeeds exactly when no abstract record
      of the subtree is a leaf. */
  lemma EmitSucceedsIff(c: Config, x: Record)
    requires c.Exact()
    ensures Emit(c, x).Ok? <==> NoAbstractLeaf(c.records, x)
  {
    if Emit(c, x).Ok? {
      forall y | InSubtree(c.records, x, y) && y.isAbstract
        ensures ChildrenOf(c.records, y) != []
      {
        EmitOkDescends(c, x, y);
        EmitLocalCheck(c, y);
      }
    } else if NoAbstractLeaf(c.records, x) {
      EmitSucceeds(c, x);
    }
  }

  /** A failed emission names an abstract leaf of the subtree. */
  lemma {:induction false} EmitErrorNode(c: Config, x: Record) returns (y: Record)
    requires c.Exact()
    requires Emit(c, x).Err?
    ensures InSubtree(c.records, x, y) && y.isAbstract && ChildrenOf(c.records, y) == []
    ensures Emit(c, x) == Err(AbstractNodeHasNoChildren(y.name))
    decreases Measure(c.records, x), 1
  {
    VisitEmpty(c.records, c.visit, x);
    var kids := c.visit(x);
    var self := if x.isAbstract then None else Some(x);
    if EmitChildren(c, x, kids, self, self).Err? {
      y := EmitChildrenErrorNode(c, x, kids, self, self);
    } else {
      y := x;
      }
  }

  lemma {:induction false} EmitChildrenErrorNode(c: Config, x: Record, kids: seq<Record>, first: Option<Record>, last: Option<Record>) returns (y: Record)
    requires c.Exact()
    requires forall k | k in kids :: k in c.records && k.base == Some(x)
    requires EmitChildren(c, x, kids, first, last).Err?
    ensures InSubtree(c.records, x, y) && y.isAbstract && ChildrenOf(c.records, y) == []
    ensures EmitChildren(c, x, kids, first, last) == Err(AbstractNodeHasNoChildren(y.name))
    decreases Measure(c.records, x), 0, |kids|
  {
    var k := kids[0];
    if Emit(c, k).Err? {
      y := EmitErrorNode(c, k);
      InSubtreeOfChild(c.records, x, k, y);
    } else {
      var sub := Emit(c, k).value;
      var first' := if first.Some? then first else Some(sub.first);
      y := EmitChildrenErrorNode(c, x, kids[1..], first', Some(sub.last));
    }
  }

  /** The head of a child block opens the child's fallback macro and nothing else. */
  lemma ScanChildHead(c: Config, x: Record, k: Record, stack: seq<string>)
    ensures Scan(ChildHead(c, x, k), stack) == Some(stack + [MacroName(k.name)])
  {
    var h := ChildHead(c, x, k);
    var m := MacroName(k.name);
    assert h[0].IfNotDefined? && h[1].Define? && h[1].macro == m && h[2].EndIf? && h[3].Invoke?;
    assert Scan(h[4..], stack + [m]) == Some(stack + [m]);
    assert Scan(h[3..], stack + [m]) == Scan(h[4..], stack + [m]);
    assert Scan(h[2..], stack + [m]) == Scan(h[3..], stack + [m]);
    assert Scan(h[1..], stack) == Scan(h[2..], stack + [m]);
    assert Scan(h, stack) == Scan(h[1..], stack);
  }

  /** The tail of a child block closes the child's fallback macro. */
  lemma ScanChildTail(k: Record, stack: seq<string>)
    ensures Scan(ChildTail(k), stack + [MacroName(k.name)]) == Some(stack)
  {
    var t := ChildTail(k);
    var m := MacroName(k.name);
    assert (stack + [m])[..|stack + [m]| - 1] == stack;
    assert Scan(t[2..], stack) == Some(stack);
    assert Scan(t[1..], stack) == Scan(t[2..], stack);
    assert Scan(t, stack + [m]) == Scan(t[1..], stack);
  }

  lemma ScanRangeLines(c: Config, x: Record, first: Record, last: Record, stack: seq<string>)
    ensures Scan(RangeLines(c, x, first, last), stack) == Some(stack)
  {
    var r := RangeLines(c, x, first, last);
    if r != [] {
      assert Scan(r[2..], stack) == Some(stack);
      assert Scan(r[1..], stack) == Scan(r[2..], stack);
      assert Scan(r, stack) == Scan(r[1..], stack);
    }
  }

  /** Every fallback macro the emission of a subtree defines is undefined
      again inside it, innermost first: the emission leaves the macros in
      scope as it found them. */
  lemma {:induction false} EmitScoped(c: Config, x: Record, stack: seq<string>)
    requires c.Valid()
    requires Emit(c, x).Ok?
    ensures Scan(Emit(c, x).value.lines, stack) == Some(stack)
    decreases Measure(c.records, x), 1
  {
    var self := if x.isAbstract then None else Some(x);
    var kids := c.visit(x);
    EmitChildrenScoped(c, x, kids, self, self, stack);
    var p := EmitChildren(c, x, kids, self, self).value;
    var marker := RangeLines(c, x, p.first.value, p.last.value);
    assert Emit(c, x).value.lines == p.lines + marker;
    ScanAppend(p.lines, marker, stack);
    ScanRangeLines(c, x, p.first.value, p.last.value, stack);
  }

  lemma {:induction false} EmitChildrenScoped(c: Config, x: Record, kids: seq<Record>, first: Option<Record>, last: Option<Record>, stack: seq<string>)
    requires c.Valid()
    requires forall k | k in kids :: k in c.records && k.base == Some(x)
    requires EmitChildren(c, x, kids, first, last).Ok?
    ensures Scan(EmitChildren(c, x, kids, first, last).value.lines, stack) == Some(stack)
    decreases Measure(c.records, x), 0, |kids|
  {
    if kids != [] {
      var k := kids[0];
      var sub := Emit(c, k).value;
      var first' := if first.Some? then first else Some(sub.first);
      var rest := EmitChildren(c, x, kids[1..], first', Some(sub.last)).value;
      var h, t := ChildHead(c, x, k), ChildTail(k);
      var inner := stack + [MacroName(k.name)];
      assert EmitChildren(c, x, kids, first, last).value.lines == h + sub.lines + t + rest.lines;
      ScanAppend(h + sub.lines + t, rest.lines, stack);
      ScanAppend(h + sub.lines, t, stack);
      ScanAppend(h, sub.lines, stack);
      ScanChildHead(c, x, k, stack);
      EmitScoped(c, k, inner);
      ScanChildTail(k, stack);
      EmitChildrenScoped(c, x, kids[1..], first', Some(sub.last), stack);
    } else {
      assert EmitChildren(c, x, kids, first, last).value.lines == [];
    }
  }

  /** A range marker fits its node: the node has children, the marker is
      the final kind exactly for the root, and it names the first and last
      concrete node of the node's subtree in preorder. */
  ghost predicate MarkerFits(c: Config, l: Line)
    requires c.Valid()
    requires l.RangeMarker?
  {
    && c.visit(l.node) != []
    && l.isLast == (l.node == c.root)
    && var w := Walk(c.records, c.visit, l.node);
       w != [] && l.first == w[0] && l.last == w[|w| - 1]
  }

  /** A successful emission is the loop's lines followed by the range
      marker lines. */
  lemma EmitParts(c: Config, x: Record)
    requires c.Valid()
    requires Emit(c, x).Ok?
    ensures var self := if x.isAbstract then None else Some(x);
      var r := EmitChildren(c, x, c.visit(x), self, self);
      && r.Ok? && r.value.first.Some? && r.value.last.Some?
      && Emit(c, x).value
         == Emission(r.value.lines + RangeLines(c, x, r.value.first.value, r.value.last.value), r.value.first.value, r.value.last.value)
  {
  }

  /** Every range marker the emission of a subtree writes is for a node of
      the subtree and fits it. */
  lemma {:induction false} EmitMarkers(c: Config, x: Record)
    requires c.Valid()
    requires Emit(c, x).Ok?
    ensures forall l | l in Emit(c, x).value.lines && l.RangeMarker? :: InSubtree(c.records, x, l.node) && MarkerFits(c, l)
    decreases Measure(c.records, x), 1
  {
    var self := if x.isAbstract then None else Some(x);
    var kids := c.visit(x);
    EmitParts(c, x);
    EmitChildrenMarkers(c, x, kids, self, self);
    EmitOrder(c, x);
    assert InSubtree(c.records, x, x);
  }

  /** The marker of the subtree's top is the one before the final blank
      line, is there exactly when the top has children, and is the only
      marker for it. */
  lemma EmitOwnMarker(c: Config, x: Record)
    requires c.Valid()
    requires Emit(c, x).Ok?
    ensures var ls := Emit(c, x).value.lines;
      && (forall i | 0 <= i < |ls| && ls[i].RangeMarker? && ls[i].node == x :: i == |ls| - 2)
      && (c.visit(x) != [] <==> |ls| >= 2 && ls[|ls| - 2].RangeMarker? && ls[|ls| - 2].node == x)
  {
    var self := if x.isAbstract then None else Some(x);
    var kids := c.visit(x);
    EmitParts(c, x);
    var p := EmitChildren(c, x, kids, self, self).value;
    var ls, m := Emit(c, x).value.lines, RangeLines(c, x, p.first.value, p.last.value);
    assert ls == p.lines + m;
    assert forall i | 0 <= i < |ls| && ls[i].RangeMarker? && ls[i].node == x :: i == |ls| - 2 by {
      forall i | 0 <= i < |ls| && ls[i].RangeMarker? && ls[i].node == x
        ensures i == |ls| - 2
      {
        if i < |p.lines| {
          assert ls[i] == p.lines[i] && p.lines[i] in p.lines;
          EmitChildrenMarkers(c, x, kids, self, self);
        }
      }
    }
    assert kids != [] <==> |ls| >= 2 && ls[|ls| - 2].RangeMarker? && ls[|ls| - 2].node == x by {
      if kids == [] {
        assert p.lines == [];
      }
    }
  }

  /** The markers of a child's block lie strictly below the parent. */
  lemma ChildMarkers(c: Config, x: Record, k: Record)
    requires c.Valid()
    requires k in c.records && k.base == Some(x)
    requires Emit(c, k).Ok?
    ensures forall l | l in Emit(c, k).value.lines && l.RangeMarker? ::
      InSubtree(c.records, x, l.node) && l.node != x && MarkerFits(c, l)
    decreases Measure(c.records, k), 2
  {
    EmitMarkers(c, k);
    forall l | l in Emit(c, k).value.lines && l.RangeMarker?
      ensures InSubtree(c.records, x, l.node) && l.node != x
    {
      InSubtreeOfChild(c.records, x, k, l.node);
      InSubtreeAncestor(c.records, k, l.node);
    }
  }

  lemma {:induction false} EmitChildrenMarkers(c: Config, x: Record, kids: seq<Record>, first: Option<Record>, last: Option<Record>)
    requires c.Valid()
    requires forall k | k in kids :: k in c.records && k.base == Some(x)
    requires EmitChildren(c, x, kids, first, last).Ok?
    ensures forall l | l in EmitChildren(c, x, kids, first, last).value.lines && l.RangeMarker? ::
      InSubtree(c.records, x, l.node) && l.node != x && MarkerFits(c, l)
    decreases Measure(c.records, x), 0, |kids|
  {
    if kids != [] {
      var k := kids[0];
      var sub := Emit(c, k).value;
      var first' := if first.Some? then first else Some(sub.first);
      var rest := EmitChildren(c, x, kids[1..], first', Some(sub.last)).value;
      var h, t := ChildHead(c, x, k), ChildTail(k);
      var ls := EmitChildren(c, x, kids, first, last).value.lines;
      assert ls == h + sub.lines + t + rest.lines;
      forall l | l in ls && l.RangeMarker?
        ensures InSubtree(c.records, x, l.node) && l.node != x && MarkerFits(c, l)
      {
        assert l !in h && l !in t;
        if l in sub.lines {
          ChildMarkers(c, x, k);
        } else {
          assert l in rest.lines;
          EmitChildrenMarkers(c, x, kids[1..], first', Some(sub.last));
        }
      }
    } else {
      assert EmitChildren(c, x, kids, first, last).value.lines == [];
    }
  }

  /** The concrete nodes the table of the whole hierarchy invokes, after the
      root itself when it is concrete, are each concrete record of the
      hierarchy exactly once, in preorder. */
  lemma TableNumbering(c: Config)
    requires c.Exact()
    requires Emit(c, c.root).Ok?
    ensures var o := Walk(c.records, c.visit, c.root);
      && SelfIfConcrete(c.root) + ConcreteOrder(Emit(c, c.root).value.lines) == o
      && Distinct(o)
      && forall y :: y in o <==> !y.isAbstract && InSubtree(c.records, c.root, y)
  {
    EmitOrder(c, c.root);
    WalkDistinct(c.records, c.visit, c.root);
    forall y
      ensures y in Walk(c.records, c.visit, c.root) <==> !y.isAbstract && InSubtree(c.records, c.root, y)
    {
      WalkMembers(c.records, c.visit, c.root, y);
    }
  }

  /** The final range marker of the table is the root's, it is the only
      one of the final kind, and it is there exactly when the root has
      children. */
  lemma TableLastMarker(c: Config)
    requires c.Valid()
    requires Emit(c, c.root).Ok?
    ensures var ls := Emit(c, c.root).value.lines;
      && (forall i | 0 <= i < |ls| && ls[i].RangeMarker? && ls[i].isLast :: i == |ls| - 2)
      && (c.visit(c.root) != [] <==> |ls| >= 2 && ls[|ls| - 2].RangeMarker? && ls[|ls| - 2].isLast)
  {
    var ls := Emit(c, c.root).value.lines;
    EmitMarkers(c, c.root);
    EmitOwnMarker(c, c.root);
    forall i | 0 <= i < |ls| && ls[i].RangeMarker?
      ensures ls[i].isLast == (ls[i].node == c.root)
    {
      assert ls[i] in ls;
    }
  }

  /** What a consumer of the table relies on: numbering the concrete nodes
      in preorder, each range marker covers exactly the concrete nodes of
      its node's subtree. */
  lemma TableRanges(c: Config)
    requires c.Exact()
    requires Emit(c, c.root).Ok?
    ensures var ls, o := Emit(c, c.root).value.lines, Walk(c.records, c.visit, c.root);
      forall l, y | l in ls && l.RangeMarker? && y in o ::
        && l.first in o && l.last in o
        && (IndexOf(o, l.first) <= IndexOf(o, y) <= IndexOf(o, l.last) <==> InSubtree(c.records, l.node, y))
  {
    var ls, o := Emit(c, c.root).value.lines, Walk(c.records, c.visit, c.root);
    forall l, y | l in ls && l.RangeMarker? && y in o
      ensures && l.first in o && l.last in o
              && (IndexOf(o, l.first) <= IndexOf(o, y) <= IndexOf(o, l.last) <==> InSubtree(c.records, l.node, y))
    {
      MarkerRange(c, l, y);
    }
  }

  /** A concrete root is never invoked: the loop covers only children. It
      still starts its own range, so the final `LAST_` marker names as its
      first node a record the table never invokes. */
  lemma ConcreteRootNeverInvoked(c: Config)
    requires c.Exact()
    requires Emit(c, c.root).Ok? && !c.root.isAbstract
    ensures var e := Emit(c, c.root).value;
      && e.first == c.root
      && c.root !in ConcreteOrder(e.lines)
      && (c.visit(c.root) != [] ==> e.lines[|e.lines| - 2].RangeMarker? && e.lines[|e.lines| - 2].first == c.root)
  {
    var e := Emit(c, c.root).value;
    var w := Walk(c.records, c.visit, c.root);
    EmitOrder(c, c.root);
    WalkDistinct(c.records, c.visit, c.root);
    assert w == [c.root] + ConcreteOrder(e.lines);
    forall k | 0 <= k < |ConcreteOrder(e.lines)|
      ensures ConcreteOrder(e.lines)[k] != c.root
    {
      assert w[k + 1] == ConcreteOrder(e.lines)[k];
    }
    if c.visit(c.root) != [] {
      EmitOwnMarker(c, c.root);
      var l := e.lines[|e.lines| - 2];
      assert l in e.lines;
      EmitMarkers(c, c.root);
      assert MarkerFits(c, l);
    }
  }

  /** One marker of the table and one concrete node of the table. */
  lemma MarkerRange(c: Config, l: Line, y: Record)
    requires c.Exact()
    requires Emit(c, c.root).Ok?
    requires l in Emit(c, c.root).value.lines && l.RangeMarker?
    requires y in Walk(c.records, c.visit, c.root)
    ensures var o := Walk(c.records, c.visit, c.root);
      && l.first in o && l.last in o
      && (IndexOf(o, l.first) <= IndexOf(o, y) <= IndexOf(o, l.last) <==> InSubtree(c.records, l.node, y))
  {
    assert InSubtree(c.records, c.root, l.node) && MarkerFits(c, l) by {
      EmitMarkers(c, c.root);
    }
    var w := Walk(c.records, c.visit, l.node);
    assert w != [] && l.first == w[0] && l.last == w[|w| - 1];
    RangeOfSubtree(c.records, c.visit, c.root, l.node, y);
  }
}
