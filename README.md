# Clang AST node-table generator, modelled in Dafny

This project models the TableGen backend that writes Clang's AST node tables
(`clang/utils/TableGen/ClangASTNodesEmitter.cpp`). It has two generators.

The **node-table emitter** (`ClangASTNodesEmitter`, `EmitClangASTNodes`) works in three steps.
- It derives a parent-to-children multimap from the records of one node class and finds the single root.
- It writes a preamble of fallback macro definitions.
- It walks the tree depth first, children in sibling order: prioritized before the rest, then descending name.

For every child it writes these lines, in order:
- a fallback definition of the child's macro, forwarding to the parent's;
- the child's invocation, wrapped in `ABSTRACT_<ROOT>(...)` when the child is abstract;
- the child's subtree;
- an `#undef` of the child's macro.

After the children of a node come its `<ROOT>_RANGE(Base, First, Last)` marker, or the `LAST_` one for the root. Every subtree reports the first and last concrete node of its subtree. An abstract node that reaches no concrete node is a fatal error, and so are a missing root and a second root.

The **declaration-context enumerator** (`printDeclContext`, `EmitClangDeclContext`) builds its own multimap. For every context record it walks the subtree in preorder, in the order the store lists the records. It mentions every concrete record through `DECL_CONTEXT(...)`, between a fallback definition and an `#undef`.

Modules, in dependency order:
- `Wrappers`: `Option` and `Result`.
- `Records`: records, fatal errors, depth, subtrees.
- `Names`: macro names, base names, name order.
- `SiblingOrder`: the comparator and the ordered set of children.
- `ChildTree`: the multimap and the root search.
- `Walks`: the reference preorder of concrete nodes.
- `Output`: line values, their text, the stream, and macro scoping.
- `NodeTable`: the node table as a function, with its properties.
- `ClangASTNodes`: the emitter class and its methods.
- `DeclContext`: the enumerator.

Each imperative routine is a method whose `ensures` ties the stream or its result to a specification function (`Emit`, `EmitChildren`, `Table`, `ContextBlock`, `DeclContextTable`). The lemmas prove what the source promises about those functions.

## Model

| member | source | states |
|---|---|---|
| Names.MacroNameAt | clang/utils/TableGen/ClangASTNodesEmitter.cpp:44 | The macro name has the name's length, and every character is the ASCII upper-casing of the name's character at the same position. |
| Names.MacroNameIsUpperCase | clang/utils/TableGen/ClangASTNodesEmitter.cpp:44 | A macro name holds no lower-case letter, keeps every other character, and macro-ising it again changes nothing. |
| Names.BaseName | clang/utils/TableGen/ClangASTNodesEmitter.cpp:53-61 | The base name always ends with the suffix. For the root with a non-empty suffix it is the suffix alone; otherwise it is the node's name followed by the suffix. |
| Names.BaseNameInjective | clang/utils/TableGen/ClangASTNodesEmitter.cpp:53-61 | Distinct non-empty names give distinct base names, so the base field identifies the parent. |
| Names.NameLessIrreflexive | clang/utils/TableGen/ClangASTNodesEmitter.cpp:102-103 | No name sorts before itself. |
| Names.NameLessAsymmetric | clang/utils/TableGen/ClangASTNodesEmitter.cpp:102-103 | Two names never sort before each other. |
| Names.NameLessTransitive | clang/utils/TableGen/ClangASTNodesEmitter.cpp:102-103 | The lexicographic name order is transitive. |
| Names.NameLessTotal | clang/utils/TableGen/ClangASTNodesEmitter.cpp:102-103 | Of two distinct names, one sorts before the other. |
| SiblingOrder.Before | clang/utils/TableGen/ClangASTNodesEmitter.cpp:99-104 | A prioritized record sorts before an unprioritized one and never after it. Between records of the same priority, the one with the larger name comes first. |
| SiblingOrder.BeforeIsStrictTotalOrder | clang/utils/TableGen/ClangASTNodesEmitter.cpp:99-104 | The sibling comparator (priority first, then descending name) is irreflexive, asymmetric and transitive, and it is total on records with distinct names. |
| SiblingOrder.InsertMembers | clang/utils/TableGen/ClangASTNodesEmitter.cpp:105-109 | Inserting into the ordered set adds at most the new child and keeps every element. It adds the child unless an element with the same name is already there. The result is never empty. |
| SiblingOrder.InsertKeepsSorted | clang/utils/TableGen/ClangASTNodesEmitter.cpp:105-109 | Insertion keeps the set strictly ordered by the comparator. |
| SiblingOrder.SortChildrenMembers | clang/utils/TableGen/ClangASTNodesEmitter.cpp:105-109 | The ordered set holds only children, and some child whenever there are children. |
| SiblingOrder.SortChildrenSorted | clang/utils/TableGen/ClangASTNodesEmitter.cpp:105-109 | The ordered set is strictly increasing under the comparator. |
| SiblingOrder.SortKeepsChildren | clang/utils/TableGen/ClangASTNodesEmitter.cpp:105-109 | With distinct names, the ordered set holds every child, each once. |
| SiblingOrder.SortedUnique | clang/utils/TableGen/ClangASTNodesEmitter.cpp:99-109 | Two strictly ordered sequences with the same elements are equal. |
| SiblingOrder.SortIgnoresInputOrder | clang/utils/TableGen/ClangASTNodesEmitter.cpp:105-109 | The emitted sibling order depends only on which children there are, not on the multimap's order. |
| SiblingOrder.SiblingOrderExample | clang/utils/TableGen/ClangASTNodesEmitter.cpp:99-104 | Unprioritized siblings `A` and `B` come out as `B`, `A`; with `A` prioritized they come out as `A`, `B`. |
| SiblingOrder.SortedChildren | clang/utils/TableGen/ClangASTNodesEmitter.cpp:105-109 | The insertion loop builds exactly the ordered set of the children. |
| ChildTree.ChildrenOf | clang/utils/TableGen/ClangASTNodesEmitter.cpp:159-161 | Every child listed for `p` is a record whose base is `p`. |
| ChildTree.ChildrenOfComplete | clang/utils/TableGen/ClangASTNodesEmitter.cpp:159-161 | Every record with base `p` is listed among the children of `p`. |
| ChildTree.ChildrenInRecordOrder | clang/utils/TableGen/ClangASTNodesEmitter.cpp:159-161 | The children of a node keep the order of the record store, as the multimap keeps insertion order. |
| ChildTree.AddChildRepresents | clang/utils/TableGen/ClangASTNodesEmitter.cpp:160-161 | Inserting the next record under its base keeps the multimap equal to the children among the records seen so far. |
| ChildTree.Roots | clang/utils/TableGen/ClangASTNodesEmitter.cpp:159-167 | The candidate roots are exactly the records of the store without a base. |
| ChildTree.ScanRootsCases | clang/utils/TableGen/ClangASTNodesEmitter.cpp:159-168 | The loop's root search finds nothing with no baseless record and the record with exactly one. With two or more it stops at the second, naming it. |
| ChildTree.DeriveRootCases | clang/utils/TableGen/ClangASTNodesEmitter.cpp:155-173 | The tree has a root exactly when one record lacks a base. Otherwise the result is the "didn't find root node" error, or the "multiple root nodes" error naming the second baseless record. |
| ChildTree.DeriveRoot | clang/utils/TableGen/ClangASTNodesEmitter.cpp:155-173 | A found root is a record of the store without a base. Any error is the "didn't find root node" error or a "multiple root nodes" error, both naming the hierarchy. |
| Walks.DeclaredOrderVisitsExactly | clang/utils/TableGen/ClangASTNodesEmitter.cpp:215-218 | Visiting children in multimap order visits every child of a node exactly once. |
| Walks.SortedOrderVisitsExactly | clang/utils/TableGen/ClangASTNodesEmitter.cpp:105-111 | With distinct names, visiting children in sibling order also visits every child exactly once. |
| Walks.VisitEmpty | clang/utils/TableGen/ClangASTNodesEmitter.cpp:92-93 | Under an exact visit, a node has children to visit exactly when the multimap lists children for it. |
| Walks.WalkSound | clang/utils/TableGen/ClangASTNodesEmitter.cpp:86-87 | The preorder walk meets only concrete records of the subtree. |
| Walks.WalkComplete | clang/utils/TableGen/ClangASTNodesEmitter.cpp:86-87 | The walk meets every concrete record of the subtree. |
| Walks.WalkMembers | clang/utils/TableGen/ClangASTNodesEmitter.cpp:86-87 | A record is in the walk exactly when it is concrete and in the subtree. |
| Walks.WalkDistinct | clang/utils/TableGen/ClangASTNodesEmitter.cpp:86-87 | The walk meets no record twice. |
| Walks.WalkSplit | clang/utils/TableGen/ClangASTNodesEmitter.cpp:86-87 | The walk of any node of a subtree is one contiguous stretch of the walk of the subtree's top. |
| Walks.RangeOfSubtree | clang/utils/TableGen/ClangASTNodesEmitter.cpp:86-87 | In the walk of `x`, a record lies between the first and last concrete nodes of the subtree of `b` exactly when it is in that subtree. |
| Output.RenderAllAt | clang/utils/TableGen/ClangASTNodesEmitter.cpp:115-149 | The text has one string per line value, and each string is that line's spelling. |
| Output.RenderAllAppend | clang/utils/TableGen/ClangASTNodesEmitter.cpp:115-149 | The text of consecutive writes is the concatenation of their texts. |
| NodeTable.EmitChildren | clang/utils/TableGen/ClangASTNodesEmitter.cpp:111-133 | When the loop over the children succeeds, it ends with a first node exactly when it started with one or there were children. The same holds for the last node. |
| NodeTable.EmitOrder | clang/utils/TableGen/ClangASTNodesEmitter.cpp:86-130 | A successful emission invokes the concrete nodes of the subtree in preorder, and the reported first and last are the first and last of them. |
| NodeTable.EmitChildrenOrder | clang/utils/TableGen/ClangASTNodesEmitter.cpp:95-130 | The loop invokes the walks of the children in order. First keeps its start value or becomes the walk's first node. Last becomes the walk's last node. |
| NodeTable.EmitLocalCheck | clang/utils/TableGen/ClangASTNodesEmitter.cpp:135-138 | A successful emission of an abstract node means the node has children. |
| NodeTable.EmitOkDescends | clang/utils/TableGen/ClangASTNodesEmitter.cpp:125-126 | When a subtree's emission succeeds, so does the emission of every node in it. |
| NodeTable.EmitSucceeds | clang/utils/TableGen/ClangASTNodesEmitter.cpp:135-139 | The emission succeeds when no abstract record of the subtree is a leaf. |
| NodeTable.EmitSucceedsIff | clang/utils/TableGen/ClangASTNodesEmitter.cpp:135-139 | The emission succeeds exactly when no abstract record of the subtree is a leaf. |
| NodeTable.EmitErrorNode | clang/utils/TableGen/ClangASTNodesEmitter.cpp:137-138 | A failed emission is the "abstract node has no children" error for an abstract leaf of the subtree. |
| NodeTable.ScanChildHead | clang/utils/TableGen/ClangASTNodesEmitter.cpp:115-123 | A child's head opens the child's macro and nothing else. |
| NodeTable.ScanChildTail | clang/utils/TableGen/ClangASTNodesEmitter.cpp:132 | A child's tail closes the child's macro. |
| NodeTable.ScanRangeLines | clang/utils/TableGen/ClangASTNodesEmitter.cpp:141-150 | The range marker opens and closes no macro. |
| NodeTable.EmitScoped | clang/utils/TableGen/ClangASTNodesEmitter.cpp:111-133 | Every macro a subtree's emission defines is undefined, innermost first, before the emission ends. |
| NodeTable.EmitMarkers | clang/utils/TableGen/ClangASTNodesEmitter.cpp:141-150 | Each range marker is for a node that has children, within the subtree. It is the `LAST_` kind exactly for the root, and it names the first and last concrete node of its node's walk. |
| NodeTable.ChildMarkers | clang/utils/TableGen/ClangASTNodesEmitter.cpp:125-133 | The markers of a child's block are for nodes strictly below the parent. |
| NodeTable.EmitOwnMarker | clang/utils/TableGen/ClangASTNodesEmitter.cpp:141-150 | A subtree's own marker appears only as its second-to-last line, and it appears exactly when the node has children. |
| NodeTable.TableNumbering | clang/utils/TableGen/ClangASTNodesEmitter.cpp:86-87 | The concrete root, if any, followed by the concrete records the root's emission invokes, is the preorder walk of the root's subtree: each concrete record of the subtree once, and no other. |
| NodeTable.TableLastMarker | clang/utils/TableGen/ClangASTNodesEmitter.cpp:141-147 | The only `LAST_` marker of the root's emission is that emission's second-to-last line, present exactly when the root has children. |
| NodeTable.TableRanges | clang/utils/TableGen/ClangASTNodesEmitter.cpp:86-150 | Number the concrete root, if any, and then the invoked nodes in emission order. A node falls between a marker's first and last exactly when it is in the marker's subtree. |
| NodeTable.ConcreteRootNeverInvoked | clang/utils/TableGen/ClangASTNodesEmitter.cpp:95-150 | A concrete root is the first node of its own range but is never invoked by the table; when it has children, the final marker names it as its first node. |
| ClangASTNodes.PreambleFallbacks | clang/utils/TableGen/ClangASTNodesEmitter.cpp:180-194 | Every macro the preamble defines is defined only as a fallback: right after an `#ifndef` of the same macro and right before an `#endif`. |
| ClangASTNodes.PostambleUndefinesPreamble | clang/utils/TableGen/ClangASTNodesEmitter.cpp:198-201 | The postamble undefines every macro the preamble defines, and the hierarchy's own node macro. |
| ClangASTNodes.TableOutcome | clang/utils/TableGen/ClangASTNodesEmitter.cpp:155-202 | The table exists exactly when one record lacks a base and no abstract record below it is a leaf. With no root the error is "didn't find root node", with two it names the second root, and otherwise it names an abstract leaf of the root's subtree. |
| ClangASTNodes.ClangASTNodesEmitter.constructor | clang/utils/TableGen/ClangASTNodesEmitter.cpp:67-75 | The emitter keeps the records, class name and suffix. Its prioritized set is the set of the given records. The tree is empty and there is no root yet. |
| ClangASTNodes.ClangASTNodesEmitter.MacroHierarchyName | clang/utils/TableGen/ClangASTNodesEmitter.cpp:46-51 | The hierarchy's macro name is the root's macro name. |
| ClangASTNodes.ClangASTNodesEmitter.DeriveChildTree | clang/utils/TableGen/ClangASTNodesEmitter.cpp:155-173 | The loop returns the root search's result. On success it has stored the root and a multimap listing every record under its base. |
| ClangASTNodes.ClangASTNodesEmitter.DeriveTurn | clang/utils/TableGen/ClangASTNodesEmitter.cpp:159-167 | One turn of the loop keeps the multimap equal to the children among the records seen so far and advances the root search, or stops with the error the root search reports for those records. |
| ClangASTNodes.DeriveStep | clang/utils/TableGen/ClangASTNodesEmitter.cpp:159-167 | One turn of the tree loop: a record with a base is inserted under it, a second baseless record is the error naming it, and the first becomes the root. |
| ClangASTNodes.ScanRootsErrStays | clang/utils/TableGen/ClangASTNodesEmitter.cpp:162-165 | Stopping at the second root gives the result of scanning every record. |
| ClangASTNodes.ClangASTNodesEmitter.EmitNode | clang/utils/TableGen/ClangASTNodesEmitter.cpp:88-153 | The method succeeds exactly when `Emit` does, with the same error. On success it writes exactly the emission's lines and returns its first and last concrete nodes. |
| ClangASTNodes.ClangASTNodesEmitter.WriteChildren | clang/utils/TableGen/ClangASTNodesEmitter.cpp:111-133 | The loop over the sorted children succeeds exactly when `EmitChildren` does. It writes that function's lines and ends with its first and last nodes. |
| ClangASTNodes.ClangASTNodesEmitter.WriteChild | clang/utils/TableGen/ClangASTNodesEmitter.cpp:111-133 | One loop turn writes the child's head, its subtree's emission and its tail, and returns the subtree's range. |
| ClangASTNodes.ClangASTNodesEmitter.EmitTable | clang/utils/TableGen/ClangASTNodesEmitter.cpp:178-201 | Once the tree is derived, the output is the table `Table` defines, or its error. |
| ClangASTNodes.ClangASTNodesEmitter.Run | clang/utils/TableGen/ClangASTNodesEmitter.cpp:175-202 | Deriving the tree and then writing gives exactly the table, or the first fatal error. On success the emitter holds the derived root and the full multimap. |
| ClangASTNodes.EmitClangASTNodes | clang/utils/TableGen/ClangASTNodesEmitter.cpp:204-208 | A fresh emitter's run writes the table of the hierarchy, or reports its fatal error. On success the stream's text grows by exactly the spelling of the table's lines, with the root's macro name as the hierarchy name. |
| DeclContext.MentionsOf | clang/utils/TableGen/ClangASTNodesEmitter.cpp:213-214 | A record is mentioned exactly when it is in the list. The mentions repeat nothing exactly when the list repeats nothing. |
| DeclContext.ContextBlockIsWalk | clang/utils/TableGen/ClangASTNodesEmitter.cpp:210-219 | A context's block mentions the preorder walk of its subtree, children in multimap order. |
| DeclContext.ChildBlocksAreWalks | clang/utils/TableGen/ClangASTNodesEmitter.cpp:215-218 | The blocks of the remaining children are the mentions of their walks, in order. |
| DeclContext.ContextBlockMembers | clang/utils/TableGen/ClangASTNodesEmitter.cpp:210-219 | A context's block mentions exactly the concrete records of its subtree, each once. |
| DeclContext.ContextLinesMembers | clang/utils/TableGen/ClangASTNodesEmitter.cpp:239-242 | Across all contexts, a record is mentioned exactly when it is concrete and in the subtree of some context. |
| DeclContext.NestedContextTwice | clang/utils/TableGen/ClangASTNodesEmitter.cpp:239-242 | For a store of exactly three records, a concrete baseless `x`, an abstract `y` whose base is `x` and a concrete `z` whose base is `y`, with `x` and `z` as the contexts, the mentions are `x`, `z`, `z`. |
| DeclContext.DeclContextScoped | clang/utils/TableGen/ClangASTNodesEmitter.cpp:228-244 | The addendum defines `DECL_CONTEXT` once, as a fallback, and undefines it at its end, leaving the macros in scope as they were. |
| DeclContext.PrintDeclContext | clang/utils/TableGen/ClangASTNodesEmitter.cpp:210-219 | It writes exactly the context's block. |
| DeclContext.PrintChildren | clang/utils/TableGen/ClangASTNodesEmitter.cpp:215-218 | The loop over the multimap's children writes their blocks, one after the other. |
| DeclContext.EmitClangDeclContext | clang/utils/TableGen/ClangASTNodesEmitter.cpp:223-245 | It writes the fallback definition, the blocks of all contexts in order, then the `#undef`. |

Three behaviours of the code that a reader might not expect:
- The "multiple root nodes" error is reported at the second baseless record and names the hierarchy. The model carries that record's name in place of its source location. The first root is not mentioned.
- A context that lies in the subtree of another context is mentioned again, in its own block (`DeclContext.NestedContextTwice`). The enumeration can therefore repeat a record.
- A concrete root is never invoked, because the loop covers only children. It still starts its own range, so the final marker is `LAST_<ROOT>_RANGE(Root, Root, Last)` and its first node is one the table never invokes (`NodeTable.ConcreteRootNeverInvoked`).

## Left out

- `emitSourceFileHeader`: the header comment text is not modelled. The output starts with the preamble.
- `raw_ostream` is modelled by `Output.OutputStream`, a sequence of line values. `Output.Render` spells each one as the source writes it.
- The TableGen record layer is modelled as input sequences.
  - `getAllDerivedDefinitions` becomes a sequence of records in store order.
  - `getValueAsOptionalDef` becomes the record's `base`, and `getValueAsBit` its `isAbstract`.
  - `getAllDerivedDefinitionsIfDefined` becomes the sequence of prioritized records.
  - A base is the record value itself, so every parent chain is finite. Cyclic bases cannot be expressed.
- `PrintFatalError` is modelled as an error result naming the record or hierarchy. Source locations and the diagnostic text are not modelled.
- ClangASTNodes.ClangASTNodesEmitter.EmitNode: says nothing about the stream after an error, because the source aborts the process there.
- ClangASTNodes.ClangASTNodesEmitter.WriteChildren: says nothing about the stream after an error, for the same reason.
- ClangASTNodes.ClangASTNodesEmitter.WriteChild: says nothing about the stream after an error, for the same reason.
- ClangASTNodes.ClangASTNodesEmitter.EmitTable: says nothing about the stream after an error, for the same reason.
- ClangASTNodes.ClangASTNodesEmitter.Run: says nothing about the stream after an error, for the same reason.
- ClangASTNodes.EmitClangASTNodes: says nothing about the stream after an error, for the same reason.
- The cache in `macroHierarchyName` is left out. `MacroHierarchyName` recomputes the root's macro name, which is what the cache holds.
- `StringRef::upper` is modelled as ASCII upper-casing.
- Name comparison is modelled on characters. For UTF-8 names this is the same order as `StringRef`'s byte comparison.
- The asserts at :47, :126, :139 and :156 become preconditions (`root.Some?`, `root.None?`) or follow from the result types: `EmitNode` returns a pair of records.
- Structural splits that change no behaviour:
  - The loop of `EmitNode` is the method `WriteChildren`, and its body is `WriteChild`.
  - The body of the loop of `deriveChildTree` is the method `DeriveTurn`.
  - The loop of `printDeclContext` is the method `PrintChildren`.
- The walk and table lemmas are stated over any visit order that visits each child exactly once (`Walks.VisitsExactly`). The emitter's sorted order satisfies this (`Walks.SortedOrderVisitsExactly`).
- Several lemmas assume `Records.UniqueNames`: record names in a TableGen store are distinct. Without it the ordered set could drop a child with a repeated name; the model's `Insert` keeps the element already present, as `std::set::insert` does.
- `flang-rt/include/flang-rt/runtime/lock.h` is not part of this model. It is a lock wrapper with no sequential logic.
