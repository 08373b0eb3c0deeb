/** The enumeration of declaration contexts: for every context record, the
    concrete declarations of its subtree in preorder, children in the order
    of the record store, each mentioned through the DECL_CONTEXT macro. */
module DeclContext {
  import opened Wrappers
  import opened Records
  import opened ChildTree
  import opened Walks
  import opened Output

  /** The macro a consumer defines to receive each declaration context. */
  const ContextMacro := "DECL_CONTEXT"

  /** One mention line per record of `nodes`, in order. */
  function Mentions(nodes: seq<Record>): (ls: seq<Line>)
    ensures |ls| == |nodes|
  {
    if nodes == [] then [] else [Mention(ContextMacro, nodes[0])] + Mentions(nodes[1..])
  }

  lemma {:induction false} MentionsAt(nodes: seq<Record>)
    ensures forall i | 0 <= i < |nodes| :: Mentions(nodes)[i] == Mention(ContextMacro, nodes[i])
    decreases |nodes|
  {
    if nodes != [] {
      MentionsAt(nodes[1..]);
    }
  }

  /** A record is mentioned exactly when it is among `nodes`; no record is
      mentioned twice unless it is twice among `nodes`. */
  lemma MentionsOf(nodes: seq<Record>, y: Record)
    ensures Mention(ContextMacro, y) in Mentions(nodes) <==> y in nodes
    ensures Distinct(Mentions(nodes)) <==> Distinct(nodes)
  {
    MentionsAt(nodes);
    var ms := Mentions(nodes);
    if Mention(ContextMacro, y) in ms {
      var i :| 0 <= i < |ms| && ms[i] == Mention(ContextMacro, y);
      assert nodes[i] == y;
    }
    if y in nodes {
      var i :| 0 <= i < |nodes| && nodes[i] == y;
      assert ms[i] == Mention(ContextMacro, y);
    }
    if Distinct(nodes) {
      forall i, j | 0 <= i < j < |ms|
        ensures ms[i] != ms[j]
      {
        assert nodes[i] != nodes[j];
      }
    }
    if Distinct(ms) {
      forall i, j | 0 <= i < j < |nodes|
        ensures nodes[i] != nodes[j]
      {
        assert ms[i] != ms[j];
      }
    }
  }

  lemma {:induction false} MentionsAppend(a: seq<Record>, b: seq<Record>)
    ensures Mentions(a + b) == Mentions(a) + Mentions(b)
    decreases |a|
  {
    if a == [] {
      assert a + b == b;
    } else {
      assert (a + b)[1..] == a[1..] + b;
      MentionsAppend(a[1..], b);
    }
  }

  /** The lines for the context `ctx`: its own mention when it is concrete,
      then the blocks of its children as the store lists them. */
  function ContextBlock(decls: seq<Record>, ctx: Record): seq<Line>
    decreases Measure(decls, ctx), 1
  {
    Mentions(SelfIfConcrete(ctx)) + ChildBlocks(decls, ctx, 0)
  }

  /** The blocks of the children of `parent` from the `i`-th on, one after
      the other. */
  function ChildBlocks(decls: seq<Record>, parent: Record, i: nat): seq<Line>
    decreases Measure(decls, parent), 0, |ChildrenOf(decls, parent)| - i
  {
    var kids := ChildrenOf(decls, parent);
    if i >= |kids| then []
    else ContextBlock(decls, kids[i]) + ChildBlocks(decls, parent, i + 1)
  }

  /** The blocks of all `contexts`, one after the other. */
  function ContextLines(decls: seq<Record>, contexts: seq<Record>): seq<Line>
    decreases |contexts|
  {
    if contexts == [] then []
    else ContextLines(decls, contexts[..|contexts| - 1]) + ContextBlock(decls, contexts[|contexts| - 1])
  }

  /** The whole addendum: the fallback definition of the macro, the blocks,
      and the macro undefined. */
  function DeclContextTable(decls: seq<Record>, contexts: seq<Record>): seq<Line>
  {
    [IfNotDefined(ContextMacro), Define(ContextMacro, "(DECL)", ""), EndIf]
      + ContextLines(decls, contexts) + [Undef(ContextMacro)]
  }

  /** The block of a context mentions exactly the concrete declarations of
      its subtree, each once. */
  lemma ContextBlockMembers(decls: seq<Record>, ctx: Record, y: Record)
    requires UniqueNames(decls)
    ensures Mention(ContextMacro, y) in ContextBlock(decls, ctx) <==> !y.isAbstract && InSubtree(decls, ctx, y)
    ensures Distinct(ContextBlock(decls, ctx))
  {
    DeclaredOrderVisitsExactly(decls);
    var w := Walk(decls, DeclaredOrder(decls), ctx);
    ContextBlockIsWalk(decls, ctx);
    MentionsOf(w, y);
    WalkMembers(decls, DeclaredOrder(decls), ctx, y);
    WalkDistinct(decls, DeclaredOrder(decls), ctx);
  }

  /** Across all contexts, a declaration is mentioned exactly when it is
      concrete and lies in the subtree of some context. */
  lemma {:induction false} ContextLinesMembers(decls: seq<Record>, contexts: seq<Record>, y: Record)
    requires UniqueNames(decls)
    ensures Mention(ContextMacro, y) in ContextLines(decls, contexts)
        <==> !y.isAbstract && exists ctx | ctx in contexts :: InSubtree(decls, ctx, y)
    decreases |contexts|
  {
    if contexts != [] {
      var init, last := contexts[..|contexts| - 1], contexts[|contexts| - 1];
      ContextLinesMembers(decls, init, y);
      ContextBlockMembers(decls, last, y);
      SomeContextSplit(decls, contexts, y);
    }
  }

  /** Some context's subtree holds `y` exactly when some context before the
      last one does or the last one does. */
  lemma SomeContextSplit(decls: seq<Record>, contexts: seq<Record>, y: Record)
    requires contexts != []
    ensures (exists ctx | ctx in contexts :: InSubtree(decls, ctx, y))
        <==> (exists ctx | ctx in contexts[..|contexts| - 1] :: InSubtree(decls, ctx, y))
             || InSubtree(decls, contexts[|contexts| - 1], y)
  {
    var init, last := contexts[..|contexts| - 1], contexts[|contexts| - 1];
    assert contexts == init + [last];
    if exists ctx | ctx in contexts :: InSubtree(decls, ctx, y) {
      var ctx :| ctx in contexts && InSubtree(decls, ctx, y);
      assert ctx in init || ctx == last;
    }
    if exists ctx | ctx in init :: InSubtree(decls, ctx, y) {
      var ctx :| ctx in init && InSubtree(decls, ctx, y);
      assert ctx in contexts;
    }
  }

  /** Mentions leave the macros in scope as they are. */
  lemma {:induction false} ScanMentions(nodes: seq<Record>, stack: seq<string>)
    ensures Scan(Mentions(nodes), stack) == Some(stack)
    decreases |nodes|
  {
    if nodes != [] {
      ScanMentions(nodes[1..], stack);
    }
  }

  lemma {:induction false} ScanContextLines(decls: seq<Record>, contexts: seq<Record>, stack: seq<string>)
    ensures Scan(ContextLines(decls, contexts), stack) == Some(stack)
    decreases |contexts|
  {
    if contexts != [] {
      var init, last := contexts[..|contexts| - 1], contexts[|contexts| - 1];
      ScanContextLines(decls, init, stack);
      ContextBlockIsWalk(decls, last);
      ScanMentions(Walk(decls, DeclaredOrder(decls), last), stack);
      ScanAppend(ContextLines(decls, init), ContextBlock(decls, last), stack);
    }
  }

  /** The addendum defines the macro once, as a fallback, and undefines it
      at its end: it leaves the macros in scope as it found them. */
  lemma DeclContextScoped(decls: seq<Record>, contexts: seq<Record>, stack: seq<string>)
    ensures Scan(DeclContextTable(decls, contexts), stack) == Some(stack)
  {
    var pre := [IfNotDefined(ContextMacro), Define(ContextMacro, "(DECL)", ""), EndIf];
    var body, post := ContextLines(decls, contexts), [Undef(ContextMacro)];
    var inner := stack + [ContextMacro];
    assert Scan(pre[2..], inner) == Some(inner);
    assert Scan(pre[1..], stack) == Scan(pre[2..], inner);
    assert Scan(pre, stack) == Some(inner);
    ScanContextLines(decls, contexts, inner);
    assert inner[..|inner| - 1] == stack;
    assert Scan(post, inner) == Some(stack);
    ScanAppend(pre + body, post, stack);
    ScanAppend(pre, body, stack);
  }

  /** The block of a context is the mention of every concrete declaration
      of its subtree in preorder, children visited as the store lists them. */
  lemma {:induction false} ContextBlockIsWalk(decls: seq<Record>, ctx: Record)
    ensures ContextBlock(decls, ctx) == Mentions(Walk(decls, DeclaredOrder(decls), ctx))
    decreases Measure(decls, ctx), 1
  {
    var visit := DeclaredOrder(decls);
    var kids := ChildrenOf(decls, ctx);
    assert kids == visit(ctx);
    assert kids[0..] == kids;
    ChildBlocksAreWalks(decls, ctx, 0);
    MentionsAppend(SelfIfConcrete(ctx), WalkAll(decls, visit, ctx, kids));
  }

  lemma {:induction false} ChildBlocksAreWalks(decls: seq<Record>, parent: Record, i: nat)
    requires i <= |ChildrenOf(decls, parent)|
    ensures ChildBlocks(decls, parent, i) == Mentions(WalkAll(decls, DeclaredOrder(decls), parent, ChildrenOf(decls, parent)[i..]))
    decreases Measure(decls, parent), 0, |ChildrenOf(decls, parent)| - i
  {
    var visit := DeclaredOrder(decls);
    var kids := ChildrenOf(decls, parent);
    if i < |kids| {
      ContextBlockIsWalk(decls, kids[i]);
      ChildBlocksAreWalks(decls, parent, i + 1);
      WalkAllFrom(decls, visit, parent, kids, i);
      MentionsAppend(Walk(decls, visit, kids[i]), WalkAll(decls, visit, parent, kids[i + 1..]));
    } else {
      assert kids[i..] == [];
    }
  }

  /** A context nested in the subtree of another context is mentioned
      again in its own block: with `z` below the abstract `y` below `x`, and
      both `x` and `z` contexts, the addendum mentions `x`, `z`, `z`. */
  lemma NestedContextTwice(x: Record, y: Record, z: Record)
    requires x.base.None? && y.base == Some(x) && z.base == Some(y)
    requires !x.isAbstract && y.isAbstract && !z.isAbstract
    ensures ContextLines([x, y, z], [x, z]) == [Mention(ContextMacro, x), Mention(ContextMacro, z), Mention(ContextMacro, z)]
  {
    var decls := [x, y, z];
    NestedBlocks(x, y, z);
    assert [x, z][..1] == [x] && [x][..0] == [];
    assert ContextLines(decls, [x]) == ContextBlock(decls, x);
  }

  /** The blocks of the contexts `x` and `z` in a chain `x`, `y`, `z`. */
  lemma NestedBlocks(x: Record, y: Record, z: Record)
    requires x.base.None? && y.base == Some(x) && z.base == Some(y)
    requires !x.isAbstract && y.isAbstract && !z.isAbstract
    ensures ContextBlock([x, y, z], z) == [Mention(ContextMacro, z)]
    ensures ContextBlock([x, y, z], x) == [Mention(ContextMacro, x), Mention(ContextMacro, z)]
  {
    var decls := [x, y, z];
    NestedChildren(x, y, z);
    assert Mentions([z]) == [Mention(ContextMacro, z)] && Mentions([x]) == [Mention(ContextMacro, x)];
    assert ChildBlocks(decls, z, 0) == [];
    assert ChildBlocks(decls, y, 1) == [];
    assert ChildBlocks(decls, y, 0) == ContextBlock(decls, z);
    assert ChildBlocks(decls, x, 1) == [];
    assert ChildBlocks(decls, x, 0) == ContextBlock(decls, y);
  }

  /** The children in a chain `x`, `y`, `z`. */
  lemma NestedChildren(x: Record, y: Record, z: Record)
    requires x.base.None? && y.base == Some(x) && z.base == Some(y)
    ensures ChildrenOf([x, y, z], x) == [y] && ChildrenOf([x, y, z], y) == [z] && ChildrenOf([x, y, z], z) == []
  {
    var decls, d2, d1 := [x, y, z], [x, y], [x];
    assert x != y && y != z && x != z && x.base != Some(z) && y.base != Some(z) by {
      assert Depth(y) == Depth(x) + 1 && Depth(z) == Depth(y) + 1;
    }
    assert decls[..2] == d2 && d2[..1] == d1 && d1[..0] == [];
    assert ChildrenOf(d1, x) == [] && ChildrenOf(d1, y) == [] && ChildrenOf(d1, z) == [];
    assert ChildrenOf(d2, x) == [y] && ChildrenOf(d2, y) == [] && ChildrenOf(d2, z) == [];
  }

  /** Writes the block of `ctx`: the context itself when concrete, then the
      blocks of its children in the order the multimap holds them. */
  method PrintDeclContext(tree: Tree, ghost decls: seq<Record>, ctx: Record, os: OutputStream)
    requires Represents(tree, decls)
    modifies os
    ensures os.lines == old(os.lines) + ContextBlock(decls, ctx)
    decreases Measure(decls, ctx), 1
  {
    if !ctx.isAbstract {
      os.Write(Mention(ContextMacro, ctx));
    }
    var kids := Lookup(tree, ctx);
    PrintChildren(tree, decls, ctx, kids, os);
    Append3(old(os.lines), Mentions(SelfIfConcrete(ctx)), ChildBlocks(decls, ctx, 0));
  }

  /** The loop of `PrintDeclContext` over the children `kids` of `ctx`. */
  method PrintChildren(tree: Tree, ghost decls: seq<Record>, ctx: Record, kids: seq<Record>, os: OutputStream)
    requires Represents(tree, decls) && kids == ChildrenOf(decls, ctx)
    modifies os
    ensures os.lines == old(os.lines) + ChildBlocks(decls, ctx, 0)
    decreases Measure(decls, ctx), 0
  {
    ghost var done: seq<Line> := [];
    for i := 0 to |kids|
      invariant os.lines == old(os.lines) + done
      invariant ChildBlocks(decls, ctx, 0) == done + ChildBlocks(decls, ctx, i)
    {
      assert kids[i] in kids;
      PrintDeclContext(tree, decls, kids[i], os);
      PrintedChild(decls, ctx, i, old(os.lines), done);
      done := done + ContextBlock(decls, kids[i]);
    }
    assert done + [] == done;
  }

  /** One turn of `PrintChildren`: the block of the `i`-th child moves from
      the blocks still to write to those written. */
  lemma PrintedChild(decls: seq<Record>, ctx: Record, i: nat, before: seq<Line>, done: seq<Line>)
    requires i < |ChildrenOf(decls, ctx)|
    requires ChildBlocks(decls, ctx, 0) == done + ChildBlocks(decls, ctx, i)
    ensures var b := ContextBlock(decls, ChildrenOf(decls, ctx)[i]);
      && before + done + b == before + (done + b)
      && ChildBlocks(decls, ctx, 0) == (done + b) + ChildBlocks(decls, ctx, i + 1)
  {
    var b := ContextBlock(decls, ChildrenOf(decls, ctx)[i]);
    Append3(before, done, b);
    Append3(done, b, ChildBlocks(decls, ctx, i + 1));
  }

  /** The blocks of the first `j + 1` contexts: those of the first `j`, then
      the block of the `j`-th. */
  lemma ContextLinesPrefix(decls: seq<Record>, contexts: seq<Record>, j: nat)
    requires j < |contexts|
    ensures ContextLines(decls, contexts[..j + 1]) == ContextLines(decls, contexts[..j]) + ContextBlock(decls, contexts[j])
  {
    assert contexts[..j + 1][..j] == contexts[..j];
  }

  /** Writes the fallback definition, builds the multimap from every
      declaration with a base, writes the block of every context, then
      undefines the macro. */
  method EmitClangDeclContext(decls: seq<Record>, contexts: seq<Record>, os: OutputStream)
    modifies os
    ensures os.lines == old(os.lines) + DeclContextTable(decls, contexts)
  {
    var pre := [IfNotDefined(ContextMacro), Define(ContextMacro, "(DECL)", ""), EndIf];
    os.WriteLines(pre);
    var tree: Tree := map[];
    EmptyTreeRepresents();
    for i := 0 to |decls|
      invariant Represents(tree, decls[..i])
      invariant os.lines == old(os.lines) + pre
    {
      AddChildRepresentsPrefix(tree, decls, i);
      if decls[i].base.Some? {
        tree := AddChild(tree, decls[i]);
      }
    }
    assert decls[..|decls|] == decls;
    assert ContextLines(decls, contexts[..0]) == [];
    assert os.lines == old(os.lines) + pre + ContextLines(decls, contexts[..0]);
    for j := 0 to |contexts|
      invariant os.lines == old(os.lines) + pre + ContextLines(decls, contexts[..j])
    {
      ContextLinesPrefix(decls, contexts, j);
      PrintDeclContext(tree, decls, contexts[j], os);
      Append3(old(os.lines) + pre, ContextLines(decls, contexts[..j]), ContextBlock(decls, contexts[j]));
    }
    assert contexts[..|contexts|] == contexts;
    os.Write(Undef(ContextMacro));
    Append4(old(os.lines), pre, ContextLines(decls, contexts), [Undef(ContextMacro)]);
  }
}
