/** BDSKStringNode: an immutable piece of a BibTeX field value, either quoted
    text, a raw number or a macro reference, and its comparison. */
module StringNodes {
  import opened Ordering

  /** BDSKStringNodeType, in the order of its enum codes. */
  datatype NodeType = QuotedString | Number | Macro

  /** The enum codes BSN_STRING = 0, BSN_NUMBER = 1, BSN_MACRODEF = 2. */
  function TypeCode(t: NodeType): (code: nat) {
    match t
    case QuotedString => 0
    case Number => 1
    case Macro => 2
  }

  /** A node: its type and its value string (for quoted text, the text
      without the quotes; for a number, its digits; for a macro, its key). */
  datatype Node = Node(kind: NodeType, value: string)

  /** nodeWithQuotedString: / initWithQuotedString:. No validation. */
  function NodeWithQuotedString(s: string): (n: Node) {
    Node(QuotedString, s)
  }

  /** nodeWithNumberString: / initWithNumberString:. No validation. */
  function NodeWithNumberString(s: string): (n: Node) {
    Node(Number, s)
  }

  /** nodeWithMacroString: / initWithMacroString:. No validation. */
  function NodeWithMacroString(s: string): (n: Node) {
    Node(Macro, s)
  }

  /** The three factories tag their argument with their own type and keep it
      verbatim as the value, so no two of them ever build equal nodes. */
  lemma NodeFactories(s: string, t: string)
    ensures NodeWithQuotedString(s).kind == QuotedString && NodeWithQuotedString(s).value == s
    ensures NodeWithNumberString(s).kind == Number && NodeWithNumberString(s).value == s
    ensures NodeWithMacroString(s).kind == Macro && NodeWithMacroString(s).value == s
    ensures NodeWithQuotedString(s) != NodeWithNumberString(t)
    ensures NodeWithQuotedString(s) != NodeWithMacroString(t)
    ensures NodeWithNumberString(s) != NodeWithMacroString(t)
  {
  }

  /** isEqual:: same type and equal values. */
  predicate IsEqual(a: Node, b: Node) {
    a.kind == b.kind && a.value == b.value
  }

  /** Node equality is structural, hence an equivalence relation. */
  lemma IsEqualIsEquivalence(a: Node, b: Node, c: Node)
    ensures IsEqual(a, b) <==> a == b
    ensures IsEqual(a, a)
    ensures IsEqual(a, b) ==> IsEqual(b, a)
    ensures IsEqual(a, b) && IsEqual(b, c) ==> IsEqual(a, c)
  {
  }

  /** One character as the comparison sees it: with the case-insensitive
      option, ASCII capitals compare as their lower-case letters. */
  function FoldChar(c: char, caseInsensitive: bool): (folded: char) {
    if caseInsensitive && 'A' <= c <= 'Z' then (c as int + 32) as char else c
  }

  function CompareChar(a: char, b: char, caseInsensitive: bool): (order: Order) {
    var x, y := FoldChar(a, caseInsensitive), FoldChar(b, caseInsensitive);
    if x < y then Ascending else if x == y then Same else Descending
  }

  function CharOrder(caseInsensitive: bool): (cmp: (char, char) -> Order) {
    (a: char, b: char) => CompareChar(a, b, caseInsensitive)
  }

  /** NSString compare:options:, with the options reduced to case insensitivity. */
  function CompareStrings(s: string, t: string, caseInsensitive: bool): (order: Order) {
    Lex(s, t, CharOrder(caseInsensitive))
  }

  function CompareCodes(i: nat, j: nat): (order: Order) {
    if i < j then Ascending else if i == j then Same else Descending
  }

  /** compareNode:options:: the types first, by enum code; for nodes of the
      same type, their values under the options. */
  function CompareNode(a: Node, b: Node, caseInsensitive: bool): (order: Order) {
    if a.kind != b.kind then CompareCodes(TypeCode(a.kind), TypeCode(b.kind))
    else CompareStrings(a.value, b.value, caseInsensitive)
  }

  /** compareNode:: compareNode:options: with no options. */
  function CompareNodeNoOptions(a: Node, b: Node): (order: Order) {
    CompareNode(a, b, false)
  }

  function NodeOrder(caseInsensitive: bool): (cmp: (Node, Node) -> Order) {
    (a: Node, b: Node) => CompareNode(a, b, caseInsensitive)
  }

  lemma CharOrderIsTotalPreorder(caseInsensitive: bool)
    ensures TotalPreorder(CharOrder(caseInsensitive))
    ensures SameMeansEqual(CharOrder(false))
  {
  }

  /** String comparison is a total preorder; without options, `Same` is equality. */
  lemma CompareStringsIsTotalPreorder(caseInsensitive: bool)
    ensures forall s: string, t: string ::
      CompareStrings(t, s, caseInsensitive) == Flip(CompareStrings(s, t, caseInsensitive))
    ensures forall s: string, t: string, u: string ::
      AtMost(CompareStrings(s, t, caseInsensitive)) && AtMost(CompareStrings(t, u, caseInsensitive))
      ==> AtMost(CompareStrings(s, u, caseInsensitive))
    ensures forall s: string, t: string :: CompareStrings(s, t, false) == Same <==> s == t
  {
    var cmp := CharOrder(caseInsensitive);
    CharOrderIsTotalPreorder(caseInsensitive);
    forall s: string, t: string ensures Lex(t, s, cmp) == Flip(Lex(s, t, cmp)) {
      LexAntisymmetric(s, t, cmp);
    }
    forall s: string, t: string, u: string | AtMost(Lex(s, t, cmp)) && AtMost(Lex(t, u, cmp))
      ensures AtMost(Lex(s, u, cmp))
    {
      LexTransitive(s, t, u, cmp);
    }
    forall s: string, t: string ensures CompareStrings(s, t, false) == Same <==> s == t {
      LexSame(s, t, CharOrder(false));
      if SameSeq(s, t, CharOrder(false)) {
        assert forall i :: 0 <= i < |s| ==> s[i] == t[i];
      }
    }
  }

  /** Nodes of different types never compare as the same, under any options,
      and sort by type code; node comparison is a total preorder. */
  lemma NodeOrderIsTotalPreorder(caseInsensitive: bool)
    ensures TotalPreorder(NodeOrder(caseInsensitive))
    ensures forall a: Node, b: Node :: a.kind != b.kind ==>
      CompareNode(a, b, caseInsensitive) != Same
      && (CompareNode(a, b, caseInsensitive) == Ascending <==> TypeCode(a.kind) < TypeCode(b.kind))
  {
    forall a: Node, b: Node
      ensures CompareNode(b, a, caseInsensitive) == Flip(CompareNode(a, b, caseInsensitive))
    {
      CompareNodeAntisymmetric(a, b, caseInsensitive);
    }
    forall a: Node, b: Node, c: Node
      | AtMost(CompareNode(a, b, caseInsensitive)) && AtMost(CompareNode(b, c, caseInsensitive))
      ensures AtMost(CompareNode(a, c, caseInsensitive))
    {
      CompareNodeTransitive(a, b, c, caseInsensitive);
    }
  }

  lemma CompareNodeAntisymmetric(a: Node, b: Node, caseInsensitive: bool)
    ensures CompareNode(b, a, caseInsensitive) == Flip(CompareNode(a, b, caseInsensitive))
  {
    if a.kind == b.kind {
      CharOrderIsTotalPreorder(caseInsensitive);
      LexAntisymmetric(a.value, b.value, CharOrder(caseInsensitive));
    }
  }

  lemma CompareNodeTransitive(a: Node, b: Node, c: Node, caseInsensitive: bool)
    requires AtMost(CompareNode(a, b, caseInsensitive)) && AtMost(CompareNode(b, c, caseInsensitive))
    ensures AtMost(CompareNode(a, c, caseInsensitive))
  {
    if a.kind == b.kind == c.kind {
      CharOrderIsTotalPreorder(caseInsensitive);
      LexTransitive(a.value, b.value, c.value, CharOrder(caseInsensitive));
    }
  }

  /** compareNode: answers `Same` exactly for equal nodes. */
  lemma CompareNodeNoOptionsIsEquality(a: Node, b: Node)
    ensures CompareNodeNoOptions(a, b) == Same <==> IsEqual(a, b)
  {
    CompareStringsIsTotalPreorder(false);
  }

  /** Without options, `Same` on nodes is equality, so node-by-node matching
      is sequence equality. */
  lemma NodeOrderNoOptionsIsEquality()
    ensures SameMeansEqual(NodeOrder(false))
  {
    forall a: Node, b: Node ensures CompareNode(a, b, false) == Same <==> a == b {
      CompareNodeNoOptionsIsEquality(a, b);
    }
  }
}
