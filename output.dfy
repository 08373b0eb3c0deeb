/** The text the generators write: one value per output line, how each is
    spelled, and the stream the lines are appended to. */
module Output {
  import opened Wrappers
  import opened Records
  import opened Names

  /** One line of generated text. */
  datatype Line =
    | IfNotDefined(macro: string)                          // #ifndef M
    | Define(macro: string, params: string, body: string)  // #  define M(params) body
    | EndIf                                                // #endif
    | Undef(macro: string)                                 // #undef M
    | Invoke(node: Record, baseName: string)               // NODE(Node, Base), wrapped when abstract
    | RangeMarker(isLast: bool, node: Record, first: Record, last: Record)
    | Mention(macro: string, node: Record)                 // M(Node)
    | Blank

  /** The text of a line; `hier` is the macro-ised name of the hierarchy's
      root, used by the abstract wrapper and the range markers. */
  function Render(hier: string, l: Line): string
  {
    match l
    case IfNotDefined(m) => "#ifndef " + m
    case Define(m, params, body) => "#  define " + m + params + (if body == "" then "" else " " + body)
    case EndIf => "#endif"
    case Undef(m) => "#undef " + m
    case Invoke(node, baseName) =>
      var call := MacroName(node.name) + "(" + node.name + ", " + baseName + ")";
      if node.isAbstract then "ABSTRACT_" + hier + "(" + call + ")" else call
    case RangeMarker(isLast, b, f, l) =>
      (if isLast then "LAST_" else "") + hier + "_RANGE(" + b.name + ", " + f.name + ", " + l.name + ")"
    case Mention(m, node) => m + "(" + node.name + ")"
    case Blank => ""
  }

  /** The text of `ls`, one string per line. */
  function RenderAll(hier: string, ls: seq<Line>): (r: seq<string>)
    ensures |r| == |ls|
  {
    if ls == [] then [] else [Render(hier, ls[0])] + RenderAll(hier, ls[1..])
  }

  lemma {:induction false} RenderAllAt(hier: string, ls: seq<Line>)
    ensures forall i | 0 <= i < |ls| :: RenderAll(hier, ls)[i] == Render(hier, ls[i])
    decreases |ls|
  {
    if ls != [] {
      RenderAllAt(hier, ls[1..]);
    }
  }

  lemma {:induction false} RenderAllAppend(hier: string, a: seq<Line>, b: seq<Line>)
    ensures RenderAll(hier, a + b) == RenderAll(hier, a) + RenderAll(hier, b)
    decreases |a|
  {
    if a == [] {
      assert a + b == b;
    } else {
      assert (a + b)[1..] == a[1..] + b;
      RenderAllAppend(hier, a[1..], b);
    }
  }

  /** The output stream: the lines written so far, each standing for the
      text `Render` gives it. */
  class OutputStream {
    var lines: seq<Line>

    /** The text written so far, for the hierarchy macro `hier`. */
    function Text(hier: string): (r: seq<string>)
      reads this
      ensures |r| == |lines|
    {
      RenderAll(hier, lines)
    }

    constructor ()
      ensures lines == []
    {
      lines := [];
    }

    method Write(line: Line)
      modifies this
      ensures lines == old(lines) + [line]
    {
      lines := lines + [line];
    }

    /** Writes `ls`, one line after the other. */
    method WriteLines(ls: seq<Line>)
      modifies this
      ensures lines == old(lines) + ls
    {
      for i := 0 to |ls|
        invariant lines == old(lines) + ls[..i]
      {
        assert ls[..i + 1] == ls[..i] + [ls[i]];
        Write(ls[i]);
      }
      assert ls[..|ls|] == ls;
    }
  }

  /** Reads `ls` as a preprocessor would for macro scoping: a definition
      opens its macro, an undefinition must close the innermost open one of
      the same name. The macros still open at the end, or None when an
      undefinition closes anything else. */
  function Scan(ls: seq<Line>, stack: seq<string>): Option<seq<string>>
  {
    if ls == [] then Some(stack)
    else
      match ls[0]
      case Define(m, _, _) => Scan(ls[1..], stack + [m])
      case Undef(m) =>
        if stack != [] && stack[|stack| - 1] == m then Scan(ls[1..], stack[..|stack| - 1]) else None
      case _ => Scan(ls[1..], stack)
  }

  lemma {:induction false} ScanAppend(a: seq<Line>, b: seq<Line>, stack: seq<string>)
    ensures Scan(a + b, stack) == match Scan(a, stack) case None => None case Some(s) => Scan(b, s)
    decreases |a|
  {
    if a != [] {
      assert (a + b)[1..] == a[1..] + b;
      match a[0]
      case Define(m, _, _) => ScanAppend(a[1..], b, stack + [m]);
      case Undef(m) =>
        if stack != [] && stack[|stack| - 1] == m {
          ScanAppend(a[1..], b, stack[..|stack| - 1]);
        }
      case _ => ScanAppend(a[1..], b, stack);
    } else {
      assert a + b == b;
    }
  }
}
