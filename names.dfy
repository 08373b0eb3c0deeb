/** Name handling of the node-table generator: macro-ising a name, the
    printed base name, and the byte-wise order of names. */
module Names {
  import opened Records

  /** ASCII upper-casing of one character; every other character is kept. */
  function Upper(c: char): char
  {
    if 'a' <= c <= 'z' then (c as int - 32) as char else c
  }

  /** The macro-ised version of a name: the name upper-cased. */
  function MacroName(s: string): (r: string)
    ensures |r| == |s|
  {
    if s == [] then [] else [Upper(s[0])] + MacroName(s[1..])
  }

  /** Each character of a macro name is the upper-cased character of the
      name at the same position. */
  lemma {:induction false} MacroNameAt(s: string)
    ensures forall i | 0 <= i < |s| :: MacroName(s)[i] == Upper(s[i])
    decreases |s|
  {
    if s != [] {
      MacroNameAt(s[1..]);
    }
  }

  /** A macro name holds no lower-case letter, keeps every other character,
      and macro-ising it again changes nothing. */
  lemma MacroNameIsUpperCase(s: string)
    ensures forall i | 0 <= i < |s| :: !('a' <= MacroName(s)[i] <= 'z')
    ensures forall i | 0 <= i < |s| && !('a' <= s[i] <= 'z') :: MacroName(s)[i] == s[i]
    ensures MacroName(MacroName(s)) == MacroName(s)
  {
    var m := MacroName(s);
    MacroNameAt(s);
    MacroNameAt(m);
    forall i | 0 <= i < |s|
      ensures !('a' <= m[i] <= 'z') && MacroName(m)[i] == m[i]
    {
      UpperIsUpper(s[i]);
    }
  }

  /** An upper-cased character is no lower-case letter, and upper-casing it
      again keeps it. */
  lemma UpperIsUpper(c: char)
    ensures !('a' <= Upper(c) <= 'z') && Upper(Upper(c)) == Upper(c)
  {
  }

  /** The name printed in the base field: the node's name followed by the
      suffix, except for the root when the suffix is non-empty, which prints
      the suffix alone. */
  function BaseName(node: Record, root: Record, suffix: string): (r: string)
    ensures |suffix| <= |r| && r[|r| - |suffix|..] == suffix
    ensures node != root || suffix == [] ==> r[..|r| - |suffix|] == node.name
    ensures node == root && suffix != [] ==> r == suffix
  {
    if node == root && suffix != [] then suffix else node.name + suffix
  }

  /** Nodes with distinct non-empty names get distinct base names. */
  lemma BaseNameInjective(a: Record, b: Record, root: Record, suffix: string)
    requires a.name != b.name && a.name != [] && b.name != []
    ensures BaseName(a, root, suffix) != BaseName(b, root, suffix)
  {
  }

  /** Lexicographic order of names, character by character, a proper prefix
      coming first. */
  predicate NameLess(a: string, b: string)
    decreases |a|
  {
    if a == [] then b != []
    else if b == [] then false
    else if a[0] == b[0] then NameLess(a[1..], b[1..])
    else a[0] < b[0]
  }

  lemma {:induction false} NameLessIrreflexive(a: string)
    ensures !NameLess(a, a)
    decreases |a|
  {
    if a != [] {
      NameLessIrreflexive(a[1..]);
    }
  }

  lemma {:induction false} NameLessAsymmetric(a: string, b: string)
    ensures !(NameLess(a, b) && NameLess(b, a))
    decreases |a|
  {
    if a != [] && b != [] && a[0] == b[0] {
      NameLessAsymmetric(a[1..], b[1..]);
    }
  }

  lemma {:induction false} NameLessTransitive(a: string, b: string, c: string)
    requires NameLess(a, b) && NameLess(b, c)
    ensures NameLess(a, c)
    decreases |a|
  {
    if a != [] && a[0] == b[0] && b[0] == c[0] {
      NameLessTransitive(a[1..], b[1..], c[1..]);
    }
  }

  lemma {:induction false} NameLessTotal(a: string, b: string)
    requires a != b
    ensures NameLess(a, b) || NameLess(b, a)
    decreases |a|
  {
    if a != [] && b != [] && a[0] == b[0] {
      assert a == [a[0]] + a[1..] && b == [b[0]] + b[1..];
      NameLessTotal(a[1..], b[1..]);
    }
  }
}
