/** BDSKComplexString and the NSString (BDSKComplexStringExtensions) category,
    as values: a string is either simple (an NSString, or a BDSKComplexString
    that is not complex) or complex (a node array holding a macro or more than
    one node). Both carry the inherited flag. */
module ComplexStrings {
  import opened Ordering
  import opened StringNodes
  import opened Search

  datatype Option<T> = None | Some(value: T)

  /** A node array is complex when it has more than one node or its only node
      is a macro. */
  predicate IsComplexNodes(ns: seq<Node>) {
    |ns| > 1 || (|ns| == 1 && ns[0].kind == Macro)
  }

  datatype StringRep =
    | Simple(text: string, inherited: bool)
    | Complex(nodes: seq<Node>, inherited: bool)

  /** A string value. A complex one always has complex nodes; every other
      node array is the simple string of its text. */
  type BibString = s: StringRep | s.Simple? || IsComplexNodes(s.nodes) witness Simple("", false)

  /** isComplex */
  predicate IsComplex(s: BibString) {
    s.Complex?
  }

  /** isInherited */
  predicate IsInherited(s: BibString) {
    s.inherited
  }

  /** nodes: a simple string is one quoted-string node holding its text. */
  function Nodes(s: BibString): (ns: seq<Node>)
    ensures |ns| >= 1
    ensures IsComplexNodes(ns) <==> IsComplex(s)
  {
    match s
    case Simple(t, _) => [NodeWithQuotedString(t)]
    case Complex(ns, _) => ns
  }

  /** complexStringWithArray:macroResolver: (without the resolver, which the
      value does not hold): a complex string of the nodes when they are
      complex, otherwise the simple string of their text. */
  function ComplexStringWithArray(a: seq<Node>): (s: BibString)
    ensures !IsInherited(s)
    ensures IsComplex(s) <==> IsComplexNodes(a)
    ensures IsComplexNodes(a) || (|a| == 1 && a[0].kind == QuotedString) ==> Nodes(s) == a
    ensures !IsComplex(s) ==> s.text == RawText(a)
  {
    if IsComplexNodes(a) then Complex(a, false)
    else Simple(if a == [] then "" else a[0].value, false)
  }

  /** stringWithInheritedValue: / initWithInheritedValue:: the same string,
      marked inherited. */
  function StringWithInheritedValue(aValue: BibString): (s: BibString)
    ensures IsInherited(s)
    ensures IsComplex(s) == IsComplex(aValue) && Nodes(s) == Nodes(aValue)
  {
    aValue.(inherited := true)
  }

  /** copyUninherited: the same string, never inherited. */
  function CopyUninherited(v: BibString): (s: BibString)
    ensures !IsInherited(s)
    ensures IsComplex(s) == IsComplex(v) && Nodes(s) == Nodes(v)
  {
    v.(inherited := false)
  }

  // ---------------------------------------------------------------------
  // Expansion

  /** The macro definitions a resolver holds: key to definition. */
  type MacroTable = map<string, BibString>

  /** What one node contributes to the expanded value. A macro contributes
      the expanded value of its definition, or its own key when the resolver
      does not define it or when it is already being expanded (a cycle). */
  function ExpandNode(n: Node, defs: MacroTable, expanding: set<string>): (v: string)
    decreases defs.Keys - expanding, 0
  {
    if n.kind != Macro then n.value
    else if n.value in defs && n.value !in expanding then
      match defs[n.value]
      case Simple(t, _) => t
      case Complex(d, _) => ExpandNodes(d, defs, expanding + {n.value})
    else n.value
  }

  /** The concatenation of what the nodes contribute, in order. */
  function ExpandNodes(ns: seq<Node>, defs: MacroTable, expanding: set<string>): (v: string)
    decreases defs.Keys - expanding, |ns|
  {
    if ns == [] then "" else ExpandNode(ns[0], defs, expanding) + ExpandNodes(ns[1..], defs, expanding)
  }

  /** The expanded value: what the string is when used as an NSString. */
  function ExpandedValue(s: BibString, defs: MacroTable): (v: string) {
    match s
    case Simple(t, _) => t
    case Complex(ns, _) => ExpandNodes(ns, defs, {})
  }

  /** The node values concatenated, macros left as their keys. */
  function RawText(ns: seq<Node>): (text: string) {
    if ns == [] then "" else ns[0].value + RawText(ns[1..])
  }

  /** Expansion distributes over concatenation of node arrays. */
  lemma {:induction false} ExpandNodesAppend(a: seq<Node>, b: seq<Node>, defs: MacroTable, expanding: set<string>)
    ensures ExpandNodes(a + b, defs, expanding) == ExpandNodes(a, defs, expanding) + ExpandNodes(b, defs, expanding)
    decreases |a|
  {
    if a == [] {
      assert a + b == b;
    } else {
      assert (a + b)[0] == a[0] && (a + b)[1..] == a[1..] + b;
      ExpandNodesAppend(a[1..], b, defs, expanding);
    }
  }

  /** Quoted strings and numbers contribute their own values, and so does a
      macro the resolver cannot expand: with no expandable macro, expansion
      is the raw text, whatever else the table holds. */
  lemma {:induction false} ExpandWithoutDefinitions(ns: seq<Node>, defs: MacroTable, expanding: set<string>)
    requires forall i :: 0 <= i < |ns| && ns[i].kind == Macro ==> ns[i].value !in defs || ns[i].value in expanding
    ensures ExpandNodes(ns, defs, expanding) == RawText(ns)
    decreases |ns|
  {
    if ns != [] {
      assert forall i :: 0 <= i < |ns| - 1 ==> ns[1..][i] == ns[i + 1];
      ExpandWithoutDefinitions(ns[1..], defs, expanding);
    }
  }

  /** Every macro among the nodes is other than `key`, and every one the
      table defines is in `reach`. */
  predicate UsesOnly(ns: seq<Node>, reach: set<string>, key: string, defs: MacroTable) {
    forall i | 0 <= i < |ns| && ns[i].kind == Macro ::
      ns[i].value != key && (ns[i].value in defs ==> ns[i].value in reach)
  }

  /** `reach` is closed under the macros its definitions use, and none of
      those definitions uses `key`: expanding any key in `reach` never meets
      `key`. */
  predicate AvoidsKey(reach: set<string>, key: string, defs: MacroTable) {
    forall k | k in reach && k in defs :: UsesOnly(Nodes(defs[k]), reach, key, defs)
  }

  /** Marking as being expanded a key that expansion never meets changes no
      node's contribution. */
  lemma {:induction false} ExpandNodeIgnoresUnreached(n: Node, defs: MacroTable, expanding: set<string>,
                                                      key: string, reach: set<string>)
    requires AvoidsKey(reach, key, defs)
    requires UsesOnly([n], reach, key, defs)
    ensures ExpandNode(n, defs, expanding + {key}) == ExpandNode(n, defs, expanding)
    decreases defs.Keys - expanding, 0
  {
    assert [n][0] == n;
    if n.kind == Macro && n.value in defs && n.value !in expanding && defs[n.value].Complex? {
      var d := defs[n.value].nodes;
      assert UsesOnly(Nodes(defs[n.value]), reach, key, defs);
      ExpandNodesIgnoresUnreached(d, defs, expanding + {n.value}, key, reach);
      assert expanding + {key} + {n.value} == expanding + {n.value} + {key};
    }
  }

  lemma {:induction false} ExpandNodesIgnoresUnreached(ns: seq<Node>, defs: MacroTable, expanding: set<string>,
                                                       key: string, reach: set<string>)
    requires AvoidsKey(reach, key, defs)
    requires UsesOnly(ns, reach, key, defs)
    ensures ExpandNodes(ns, defs, expanding + {key}) == ExpandNodes(ns, defs, expanding)
    decreases defs.Keys - expanding, |ns|
  {
    if ns != [] {
      assert [ns[0]][0] == ns[0];
      ExpandNodeIgnoresUnreached(ns[0], defs, expanding, key, reach);
      assert forall i :: 0 <= i < |ns| - 1 ==> ns[1..][i] == ns[i + 1];
      ExpandNodesIgnoresUnreached(ns[1..], defs, expanding, key, reach);
    }
  }

  /** A macro node whose key the resolver defines contributes the
      definition's expanded value, nested macros expanded too, as long as
      expanding the definition never leads back to the key: `reach` holds
      the defined macros the definition uses, and is closed under the macros
      their definitions use, none of which is the key. */
  lemma ExpandDefinedMacro(key: string, defs: MacroTable, reach: set<string>)
    requires key in defs
    requires UsesOnly(Nodes(defs[key]), reach, key, defs)
    requires AvoidsKey(reach, key, defs)
    ensures ExpandNodes([NodeWithMacroString(key)], defs, {}) == ExpandedValue(defs[key], defs)
  {
    var m := NodeWithMacroString(key);
    assert [m][0] == m && [m][1..] == [];
    if IsComplex(defs[key]) {
      assert {} + {key} == {key};
      ExpandNodesIgnoresUnreached(defs[key].nodes, defs, {}, key, reach);
    }
  }

  /** A nested table without a cycle: `b` uses `a`, `a` uses `c`, and `a`
      expands through `c` to the expanded value of its definition. */
  lemma NestedMacroExpands()
    ensures var defs := map["a" := Complex([NodeWithMacroString("c"), NodeWithQuotedString("1")], false),
                            "c" := Simple("z", false),
                            "b" := Complex([NodeWithMacroString("a"), NodeWithQuotedString("y")], false)];
      ExpandNodes([NodeWithMacroString("a")], defs, {}) == ExpandedValue(defs["a"], defs) == "z1"
  {
    var defs := map["a" := Complex([NodeWithMacroString("c"), NodeWithQuotedString("1")], false),
                    "c" := Simple("z", false),
                    "b" := Complex([NodeWithMacroString("a"), NodeWithQuotedString("y")], false)];
    ExpandDefinedMacro("a", defs, {"c"});
    var d := defs["a"].nodes;
    assert d[0] == NodeWithMacroString("c") && d[1..][0] == NodeWithQuotedString("1") && d[1..][1..] == [];
    assert ExpandNodes(d[1..], defs, {}) == "1";
  }

  /** Two distinct macros defined as each other expand, without looping, to
      the key at which the cycle closes; every other definition is irrelevant. */
  lemma CyclicMacrosTerminate(k1: string, k2: string, defs: MacroTable)
    requires k1 != k2
    requires k1 in defs && Nodes(defs[k1]) == [NodeWithMacroString(k2)]
    requires k2 in defs && Nodes(defs[k2]) == [NodeWithMacroString(k1)]
    ensures ExpandNodes([NodeWithMacroString(k1)], defs, {}) == k1
    ensures ExpandNodes([NodeWithMacroString(k2)], defs, {}) == k2
  {
    CycleStep(k1, k2, defs);
    CycleStep(k2, k1, defs);
  }

  lemma CycleStep(k1: string, k2: string, defs: MacroTable)
    requires k1 != k2
    requires k1 in defs && Nodes(defs[k1]) == [NodeWithMacroString(k2)]
    requires k2 in defs && Nodes(defs[k2]) == [NodeWithMacroString(k1)]
    ensures ExpandNodes([NodeWithMacroString(k1)], defs, {}) == k1
  {
    var a, b := NodeWithMacroString(k1), NodeWithMacroString(k2);
    assert [a][0] == a && [a][1..] == [] && [b][0] == b && [b][1..] == [];
    assert defs[k1] == Complex([b], defs[k1].inherited);
    assert defs[k2] == Complex([a], defs[k2].inherited);
    assert ExpandNodes([a], defs, {k1, k2}) == k1;
    assert {k1} + {k2} == {k1, k2};
    assert ExpandNodes([b], defs, {k1}) == k1;
    assert {} + {k1} == {k1};
    assert ExpandNode(a, defs, {}) == k1;
  }

  /** A cycle does not fail the expansion: the key that closes it stands
      for itself and the rest of the definitions still contribute, so with
      `a = b # {x}` and `b = a` the macro `a` expands to "ax". */
  lemma CycleGivesPartialExpansion(defs: MacroTable)
    requires defs == map["a" := Complex([NodeWithMacroString("b"), NodeWithQuotedString("x")], false),
                         "b" := Complex([NodeWithMacroString("a")], false)]
    ensures ExpandNodes([NodeWithMacroString("a")], defs, {}) == "ax"
  {
    var a, b, x := NodeWithMacroString("a"), NodeWithMacroString("b"), NodeWithQuotedString("x");
    assert [a][0] == a && [a][1..] == [] && [b, x][0] == b && [b, x][1..] == [x] && [x][1..] == [];
    assert {} + {"a"} == {"a"} && {"a"} + {"b"} == {"a", "b"};
    assert ExpandNodes([a], defs, {"a", "b"}) == "a";
    assert ExpandNodes([x], defs, {"a"}) == "x";
    assert ExpandNodes([b, x], defs, {"a"}) == "ax";
  }

  /** The expanded value is the expansion of the string's nodes, and building
      a string from nodes keeps their expansion. */
  lemma ExpandedValueOfNodes(s: BibString, a: seq<Node>, defs: MacroTable)
    ensures ExpandedValue(s, defs) == ExpandNodes(Nodes(s), defs, {})
    ensures ExpandedValue(ComplexStringWithArray(a), defs) == ExpandNodes(a, defs, {})
  {
    if !IsComplexNodes(a) && a != [] {
      assert a[1..] == [];
    }
  }

  // ---------------------------------------------------------------------
  // Equality and ordering as complex strings

  /** The node arrays are equal node by node (NSArray isEqual:). */
  predicate SameNodes(a: seq<Node>, b: seq<Node>) {
    |a| == |b| && forall i :: 0 <= i < |a| ==> IsEqual(a[i], b[i])
  }

  /** isEqualAsComplexString:: both simple with the same value, or both
      complex with the same nodes. The inherited flag does not matter. */
  predicate IsEqualAsComplexString(a: BibString, b: BibString) {
    if !IsComplex(a) && !IsComplex(b) then a.text == b.text
    else IsComplex(a) && IsComplex(b) && SameNodes(a.nodes, b.nodes)
  }

  /** Equality as complex strings is exactly equality of the node arrays: a
      simple string is never equal to a complex one, and macros are compared
      by key, never by what they expand to. */
  lemma EqualAsComplexStringIsSameNodes(a: BibString, b: BibString)
    ensures IsEqualAsComplexString(a, b) <==> Nodes(a) == Nodes(b)
  {
    if IsComplex(a) && IsComplex(b) && SameNodes(a.nodes, b.nodes) {
      assert forall i :: 0 <= i < |a.nodes| ==> a.nodes[i] == b.nodes[i];
    }
    if Nodes(a) == Nodes(b) && !IsComplex(a) {
      assert Nodes(a)[0].value == a.text && Nodes(b)[0].value == b.text;
    }
  }

  lemma EqualAsComplexStringIsEquivalence(a: BibString, b: BibString, c: BibString)
    ensures IsEqualAsComplexString(a, a)
    ensures IsEqualAsComplexString(a, b) ==> IsEqualAsComplexString(b, a)
    ensures IsEqualAsComplexString(a, b) && IsEqualAsComplexString(b, c) ==> IsEqualAsComplexString(a, c)
  {
    EqualAsComplexStringIsSameNodes(a, a);
    EqualAsComplexStringIsSameNodes(a, b);
    EqualAsComplexStringIsSameNodes(b, a);
    EqualAsComplexStringIsSameNodes(b, c);
    EqualAsComplexStringIsSameNodes(a, c);
  }

  /** compareAsComplexString:options:: simple strings by value; every
      simple string before every complex one; complex strings node by node,
      never by expanded value. */
  function CompareAsComplexString(a: BibString, b: BibString, caseInsensitive: bool): (order: Order) {
    if !IsComplex(a) && !IsComplex(b) then CompareStrings(a.text, b.text, caseInsensitive)
    else if !IsComplex(a) then Ascending
    else if !IsComplex(b) then Descending
    else Lex(a.nodes, b.nodes, NodeOrder(caseInsensitive))
  }

  /** compareAsComplexString:: no options. */
  function CompareAsComplexStringNoOptions(a: BibString, b: BibString): (order: Order) {
    CompareAsComplexString(a, b, false)
  }

  /** The order is total and consistent in both directions and transitive,
      and a simple string sorts strictly before a complex one whatever the
      expanded values are. */
  lemma CompareAsComplexStringIsTotalPreorder(a: BibString, b: BibString, c: BibString, caseInsensitive: bool)
    ensures CompareAsComplexString(b, a, caseInsensitive) == Flip(CompareAsComplexString(a, b, caseInsensitive))
    ensures AtMost(CompareAsComplexString(a, b, caseInsensitive)) && AtMost(CompareAsComplexString(b, c, caseInsensitive))
      ==> AtMost(CompareAsComplexString(a, c, caseInsensitive))
    ensures !IsComplex(a) && IsComplex(b) ==>
      CompareAsComplexString(a, b, caseInsensitive) == Ascending
      && CompareAsComplexString(b, a, caseInsensitive) == Descending
  {
    CompareStringsIsTotalPreorder(caseInsensitive);
    NodeOrderIsTotalPreorder(caseInsensitive);
    if IsComplex(a) && IsComplex(b) {
      LexAntisymmetric(a.nodes, b.nodes, NodeOrder(caseInsensitive));
    }
    if IsComplex(a) && IsComplex(b) && IsComplex(c) {
      if AtMost(CompareAsComplexString(a, b, caseInsensitive)) && AtMost(CompareAsComplexString(b, c, caseInsensitive)) {
        LexTransitive(a.nodes, b.nodes, c.nodes, NodeOrder(caseInsensitive));
      }
    }
  }

  /** compareAsComplexString: answers `Same` exactly for strings that are
      equal as complex strings. */
  lemma CompareAsComplexStringNoOptionsIsEquality(a: BibString, b: BibString)
    ensures CompareAsComplexStringNoOptions(a, b) == Same <==> IsEqualAsComplexString(a, b)
  {
    CompareStringsIsTotalPreorder(false);
    if IsComplex(a) && IsComplex(b) {
      LexSame(a.nodes, b.nodes, NodeOrder(false));
      forall i | 0 <= i < |a.nodes| && i < |b.nodes|
        ensures CompareNode(a.nodes[i], b.nodes[i], false) == Same <==> IsEqual(a.nodes[i], b.nodes[i])
      {
        CompareNodeNoOptionsIsEquality(a.nodes[i], b.nodes[i]);
      }
    }
  }

  // ---------------------------------------------------------------------
  // Node-aware search and replace

  /** hasSubstring:options:: plain substring search between simple strings,
      whole-node search between complex strings, and NO across the two. */
  predicate HasSubstring(s: BibString, target: BibString, caseInsensitive: bool) {
    if !IsComplex(s) && !IsComplex(target) then Contains(s.text, target.text, CharOrder(caseInsensitive))
    else if IsComplex(s) && IsComplex(target) then Contains(s.nodes, target.nodes, NodeOrder(caseInsensitive))
    else false
  }

  /** What stringByReplacingOccurrencesOfString:withString:options:replacements:
      returns and the count it reports. Simple strings are replaced in their
      text, by the replacement's plain (expanded) value; complex strings by
      whole nodes, with the replacement's nodes; across the two, the
      receiver comes back unchanged. */
  function Replaced(s: BibString, target: BibString, replacement: BibString, caseInsensitive: bool, defs: MacroTable)
    : (result: (BibString, nat))
  {
    if !IsComplex(s) && !IsComplex(target) then
      var (t, k) := ReplaceAll(s.text, target.text, ExpandedValue(replacement, defs), CharOrder(caseInsensitive));
      (Simple(t, false), k)
    else if IsComplex(s) && IsComplex(target) then
      var (ns, k) := ReplaceAll(s.nodes, target.nodes, Nodes(replacement), NodeOrder(caseInsensitive));
      (ComplexStringWithArray(ns), k)
    else (s, 0)
  }

  /** stringByReplacingOccurrencesOfString:withString:options:replacements:.
      `defs` is the table of the replacement's resolver, which gives its
      plain value. */
  method StringByReplacingOccurrences(s: BibString, target: BibString, replacement: BibString,
                                      caseInsensitive: bool, defs: MacroTable)
    returns (r: BibString, number: nat)
    ensures (r, number) == Replaced(s, target, replacement, caseInsensitive, defs)
    ensures IsComplex(s) != IsComplex(target) ==> r == s && number == 0
  {
    if !IsComplex(s) && !IsComplex(target) {
      var t;
      t, number := ReplaceOccurrences(s.text, target.text, ExpandedValue(replacement, defs), CharOrder(caseInsensitive));
      r := Simple(t, false);
    } else if IsComplex(s) && IsComplex(target) {
      var ns;
      ns, number := ReplaceOccurrences(s.nodes, target.nodes, Nodes(replacement), NodeOrder(caseInsensitive));
      r := ComplexStringWithArray(ns);
    } else {
      r, number := s, 0;
    }
  }

  /** The count is zero exactly when hasSubstring:options: answers NO, and
      then the result is equal as a complex string to the receiver. */
  lemma ReplacedCountIsZeroIffNotFound(s: BibString, target: BibString, replacement: BibString,
                                       caseInsensitive: bool, defs: MacroTable)
    ensures Replaced(s, target, replacement, caseInsensitive, defs).1 == 0 <==> !HasSubstring(s, target, caseInsensitive)
    ensures IsComplex(s) != IsComplex(target) ==> !HasSubstring(s, target, caseInsensitive)
    ensures Replaced(s, target, replacement, caseInsensitive, defs).1 == 0 ==>
      IsEqualAsComplexString(Replaced(s, target, replacement, caseInsensitive, defs).0, s)
  {
    if !IsComplex(s) && !IsComplex(target) {
      ReplaceAllCountZero(s.text, target.text, ExpandedValue(replacement, defs), CharOrder(caseInsensitive));
    } else if IsComplex(s) && IsComplex(target) {
      ReplaceAllCountZero(s.nodes, target.nodes, Nodes(replacement), NodeOrder(caseInsensitive));
      EqualAsComplexStringIsSameNodes(s, s);
    } else {
      EqualAsComplexStringIsSameNodes(s, s);
    }
  }

  /** For complex strings only whole-node matches are replaced: the
      receiver's nodes split into untouched gaps and `k` stretches of whole
      nodes that each match the target's nodes, no whole-node match starts
      inside a gap, and the result is built from the same gaps with the
      replacement's nodes in place of every stretch. */
  lemma ReplacedComplexIsWholeNode(s: BibString, target: BibString, replacement: BibString,
                                   caseInsensitive: bool, defs: MacroTable)
    requires IsComplex(s) && IsComplex(target)
    ensures var (r, k) := Replaced(s, target, replacement, caseInsensitive, defs);
      exists p: Pieces<Node> ::
        && Stretches(p) == k
        && AllMatch(p, target.nodes, NodeOrder(caseInsensitive))
        && s.nodes == Join(p)
        && r == ComplexStringWithArray(Join(Refill(p, Nodes(replacement))))
        && GapsMatchFree(p, target.nodes, NodeOrder(caseInsensitive))
  {
    ReplaceAllShape(s.nodes, target.nodes, Nodes(replacement), NodeOrder(caseInsensitive));
  }

  /** For simple strings the text splits the same way around every match of
      a non-empty target's text, which is replaced by the replacement's plain
      value; no match starts in the text that is kept. */
  lemma ReplacedSimpleIsTextReplace(s: BibString, target: BibString, replacement: BibString,
                                    caseInsensitive: bool, defs: MacroTable)
    requires !IsComplex(s) && !IsComplex(target)
    ensures var (r, k) := Replaced(s, target, replacement, caseInsensitive, defs);
      exists p: Pieces<char> ::
        && Stretches(p) == k
        && AllMatch(p, target.text, CharOrder(caseInsensitive))
        && s.text == Join(p)
        && r == Simple(Join(Refill(p, ExpandedValue(replacement, defs))), false)
        && (|target.text| > 0 ==> GapsMatchFree(p, target.text, CharOrder(caseInsensitive)))
  {
    ReplaceAllShape(s.text, target.text, ExpandedValue(replacement, defs), CharOrder(caseInsensitive));
  }
}
