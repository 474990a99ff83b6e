/** BibTeX field-value syntax: stringAsBibTeXString,
    stringAsExpandedBibTeXString and complexStringWithBibTeXString:, with the
    round trip between them. A value is a `#`-separated list of tokens: text
    in braces (or double quotes), a number, or a macro key. */
module BibTeX {
  import opened StringNodes
  import opened ComplexStrings

  datatype ParseError = UnbalancedDelimiters | EmptyToken | UnexpectedCharacter(c: char)

  datatype ParseResult<T> = Parsed(value: T) | Malformed(error: ParseError)

  /** The concatenation operator as written between tokens. */
  const Separator: string := " # "

  // ---------------------------------------------------------------------
  // Serialisation

  /** Quoted text in braces; numbers and macro keys bare. */
  function NodeAsBibTeX(n: Node): (bt: string) {
    match n.kind
    case QuotedString => "{" + n.value + "}"
    case Number => n.value
    case Macro => n.value
  }

  function NodesAsBibTeX(ns: seq<Node>): (bt: string)
    decreases |ns|
  {
    if ns == [] then ""
    else if |ns| == 1 then NodeAsBibTeX(ns[0])
    else NodeAsBibTeX(ns[0]) + Separator + NodesAsBibTeX(ns[1..])
  }

  /** stringAsBibTeXString: the unexpanded BibTeX value of a complex string;
      a simple string enclosed in quoting braces. */
  function StringAsBibTeXString(s: BibString): (bt: string) {
    if IsComplex(s) then NodesAsBibTeX(s.nodes) else "{" + s.text + "}"
  }

  /** stringAsExpandedBibTeXString: the expanded value of a complex string in
      quoting braces; the BibTeX value of any other string. */
  function StringAsExpandedBibTeXString(s: BibString, defs: MacroTable): (bt: string) {
    if IsComplex(s) then "{" + ExpandedValue(s, defs) + "}" else StringAsBibTeXString(s)
  }

  /** Both forms are the serialisation of a node array: the string's own, or
      a single quoted node holding the expanded value. */
  lemma BibTeXStringOfNodes(s: BibString, defs: MacroTable)
    ensures StringAsBibTeXString(s) == NodesAsBibTeX(Nodes(s))
    ensures StringAsExpandedBibTeXString(s, defs)
         == NodesAsBibTeX([NodeWithQuotedString(ExpandedValue(s, defs))])
    ensures !IsComplex(s) ==> StringAsExpandedBibTeXString(s, defs) == StringAsBibTeXString(s)
  {
  }

  // ---------------------------------------------------------------------
  // Parsing

  predicate IsSpace(c: char) {
    c == ' ' || c == '\t' || c == '\n' || c == '\r'
  }

  predicate IsDigit(c: char) {
    '0' <= c <= '9'
  }

  /** Characters a macro key may hold. */
  predicate IsMacroChar(c: char) {
    !IsSpace(c) && c !in "\"#%'(),={}"
  }

  function SkipSpaces(s: string): (r: string)
    ensures |r| <= |s|
    ensures r == [] || !IsSpace(r[0])
  {
    if s != [] && IsSpace(s[0]) then SkipSpaces(s[1..]) else s
  }

  /** The length of the longest prefix whose characters all satisfy `p`. */
  function Span(s: string, p: char -> bool): (n: nat)
    ensures n <= |s|
  {
    if s != [] && p(s[0]) then 1 + Span(s[1..], p) else 0
  }

  function Shift(o: Option<nat>): (shifted: Option<nat>) {
    if o.Some? then Some(o.value + 1) else None
  }

  /** The position of the brace that closes an opened brace, `depth` braces
      deeper inside, if any. */
  function ClosingBrace(s: string, depth: nat): (r: Option<nat>)
    ensures r.Some? ==> r.value < |s|
  {
    if s == [] then None
    else if s[0] == '}' then (if depth == 0 then Some(0) else Shift(ClosingBrace(s[1..], depth - 1)))
    else if s[0] == '{' then Shift(ClosingBrace(s[1..], depth + 1))
    else Shift(ClosingBrace(s[1..], depth))
  }

  /** The position of the double quote that closes a quoted token, outside
      every brace; none when a brace closes that was never opened. */
  function ClosingQuote(s: string, depth: nat): (r: Option<nat>)
    ensures r.Some? ==> r.value < |s|
  {
    if s == [] then None
    else if s[0] == '"' && depth == 0 then Some(0)
    else if s[0] == '}' then (if depth == 0 then None else Shift(ClosingQuote(s[1..], depth - 1)))
    else if s[0] == '{' then Shift(ClosingQuote(s[1..], depth + 1))
    else Shift(ClosingQuote(s[1..], depth))
  }

  /** One token at the start of `s`, and what follows it. */
  function ParseToken(s: string): (r: ParseResult<(Node, string)>)
    ensures r.Parsed? ==> |r.value.1| < |s|
  {
    if s == [] then Malformed(EmptyToken)
    else if s[0] == '{' then
      match ClosingBrace(s[1..], 0)
      case None => Malformed(UnbalancedDelimiters)
      case Some(j) => Parsed((NodeWithQuotedString(s[1..j + 1]), s[j + 2..]))
    else if s[0] == '"' then
      match ClosingQuote(s[1..], 0)
      case None => Malformed(UnbalancedDelimiters)
      case Some(j) => Parsed((NodeWithQuotedString(s[1..j + 1]), s[j + 2..]))
    else if IsDigit(s[0]) then
      var n := Span(s, IsDigit);
      Parsed((NodeWithNumberString(s[..n]), s[n..]))
    else if IsMacroChar(s[0]) then
      var n := Span(s, IsMacroChar);
      Parsed((NodeWithMacroString(s[..n]), s[n..]))
    else if s[0] == '#' then Malformed(EmptyToken)
    else Malformed(UnexpectedCharacter(s[0]))
  }

  /** The tokens of a BibTeX value, in order. */
  function ParseNodes(s: string): (r: ParseResult<seq<Node>>)
    ensures r.Parsed? ==> |r.value| >= 1
    decreases |s|
  {
    var t := SkipSpaces(s);
    match ParseToken(t)
    case Malformed(e) => Malformed(e)
    case Parsed((n, rest)) =>
      var after := SkipSpaces(rest);
      if after == [] then Parsed([n])
      else if after[0] == '#' then Prepend(n, ParseNodes(after[1..]))
      else Malformed(UnexpectedCharacter(after[0]))
  }

  /** The parsed tokens with `n` in front; failures pass through. */
  function Prepend(n: Node, r: ParseResult<seq<Node>>): (prepended: ParseResult<seq<Node>>) {
    match r
    case Malformed(e) => Malformed(e)
    case Parsed(ns) => Parsed([n] + ns)
  }

  /** complexStringWithBibTeXString:macroResolver: (the resolver is not
      part of the value): the complex or simple string of the tokens. */
  function ComplexStringWithBibTeXString(btstring: string): (result: ParseResult<BibString>) {
    match ParseNodes(btstring)
    case Malformed(e) => Malformed(e)
    case Parsed(ns) => Parsed(ComplexStringWithArray(ns))
  }

  // ---------------------------------------------------------------------
  // Valid values and the round trip

  /** Scanning `v` with `depth` braces open, no brace closes that was not
      opened and all are closed at the end. */
  predicate BalancedFrom(v: string, depth: nat)
    decreases |v|
  {
    if v == [] then depth == 0
    else if v[0] == '{' then BalancedFrom(v[1..], depth + 1)
    else if v[0] == '}' then depth > 0 && BalancedFrom(v[1..], depth - 1)
    else BalancedFrom(v[1..], depth)
  }

  predicate Balanced(v: string) {
    BalancedFrom(v, 0)
  }

  /** What the node factories expect of their arguments: quoted text without
      unbalanced braces, a number of digits only, a macro key of key
      characters that does not start with a digit. */
  predicate ValidNode(n: Node) {
    match n.kind
    case QuotedString => Balanced(n.value)
    case Number => |n.value| > 0 && forall i :: 0 <= i < |n.value| ==> IsDigit(n.value[i])
    case Macro => |n.value| > 0 && !IsDigit(n.value[0]) && forall i :: 0 <= i < |n.value| ==> IsMacroChar(n.value[i])
  }

  predicate ValidNodes(ns: seq<Node>) {
    forall i :: 0 <= i < |ns| ==> ValidNode(ns[i])
  }

  lemma {:induction false} ClosingBraceOfBalanced(v: string, rest: string, depth: nat)
    requires BalancedFrom(v, depth)
    ensures ClosingBrace(v + "}" + rest, depth) == Some(|v|)
    decreases |v|
  {
    var s := v + "}" + rest;
    if v == [] {
      assert s[0] == '}';
    } else {
      assert s[0] == v[0] && s[1..] == v[1..] + "}" + rest;
      if v[0] == '{' {
        ClosingBraceOfBalanced(v[1..], rest, depth + 1);
      } else if v[0] == '}' {
        ClosingBraceOfBalanced(v[1..], rest, depth - 1);
      } else {
        ClosingBraceOfBalanced(v[1..], rest, depth);
      }
    }
  }

  lemma {:induction false} SpanOfRun(v: string, rest: string, p: char -> bool)
    requires forall i :: 0 <= i < |v| ==> p(v[i])
    requires rest == [] || !p(rest[0])
    ensures Span(v + rest, p) == |v|
    decreases |v|
  {
    if v == [] {
      assert v + rest == rest;
    } else {
      assert (v + rest)[0] == v[0] && (v + rest)[1..] == v[1..] + rest;
      assert forall i :: 0 <= i < |v| - 1 ==> v[1..][i] == v[i + 1];
      SpanOfRun(v[1..], rest, p);
    }
  }

  /** A valid node's text starts with a character that is not a space. */
  lemma NodeAsBibTeXStart(n: Node)
    requires ValidNode(n)
    ensures |NodeAsBibTeX(n)| > 0 && !IsSpace(NodeAsBibTeX(n)[0])
  {
    if n.kind == Macro {
      assert IsMacroChar(n.value[0]);
    }
  }

  /** Parsing the serialisation of a valid node gives back the node, and
      leaves what followed it. */
  lemma ParseTokenOfNode(n: Node, rest: string)
    requires ValidNode(n)
    requires rest == [] || rest[0] == ' '
    ensures ParseToken(NodeAsBibTeX(n) + rest) == Parsed((n, rest))
  {
    var s := NodeAsBibTeX(n) + rest;
    var v := n.value;
    match n.kind
    case QuotedString =>
      assert s[0] == '{' && s[1..] == v + "}" + rest;
      ClosingBraceOfBalanced(v, rest, 0);
      assert s[1..|v| + 1] == v && s[|v| + 2..] == rest;
    case Number =>
      assert s == v + rest && s[0] == v[0];
      SpanOfRun(v, rest, IsDigit);
      assert s[..|v|] == v && s[|v|..] == rest;
    case Macro =>
      assert s == v + rest && s[0] == v[0] && IsMacroChar(v[0]);
      SpanOfRun(v, rest, IsMacroChar);
      assert s[..|v|] == v && s[|v|..] == rest;
  }

  lemma {:induction false} SkipSpacesIdempotent(s: string)
    ensures SkipSpaces(SkipSpaces(s)) == SkipSpaces(s)
    decreases |s|
  {
    if s != [] && IsSpace(s[0]) {
      SkipSpacesIdempotent(s[1..]);
    }
  }

  /** Leading white space does not change what parses. */
  lemma ParseNodesSkipsSpaces(s: string)
    ensures ParseNodes(s) == ParseNodes(SkipSpaces(s))
  {
    SkipSpacesIdempotent(s);
  }

  /** The serialisation of the last node parses to that node alone. */
  lemma ParseLastNode(n: Node)
    requires ValidNode(n)
    ensures ParseNodes(NodeAsBibTeX(n)) == Parsed([n])
  {
    var tok := NodeAsBibTeX(n);
    NodeAsBibTeXStart(n);
    assert tok + "" == tok;
    assert SkipSpaces(tok) == tok;
    ParseTokenOfNode(n, "");
    assert SkipSpaces("") == "";
  }

  /** A node followed by the separator parses to that node in front of
      whatever the remainder parses to. */
  lemma ParseNodeThenRest(n: Node, j: string)
    requires ValidNode(n)
    requires j != [] && !IsSpace(j[0])
    ensures ParseNodes(NodeAsBibTeX(n) + Separator + j) == Prepend(n, ParseNodes(j))
  {
    var tok := NodeAsBibTeX(n);
    assert tok != [] && !IsSpace(tok[0]) by {
      NodeAsBibTeXStart(n);
    }
    assert ParseToken(tok + Separator + j) == Parsed((n, Separator + j)) by {
      ParseTokenOfNode(n, Separator + j);
      assert tok + (Separator + j) == tok + Separator + j;
    }
    ParseTokenThenRest(tok, n, j);
  }

  /** A token that parses to `n` and is followed by the separator parses to
      `n` in front of whatever the remainder parses to. */
  lemma ParseTokenThenRest(tok: string, n: Node, j: string)
    requires tok != [] && !IsSpace(tok[0])
    requires ParseToken(tok + Separator + j) == Parsed((n, Separator + j))
    requires j != [] && !IsSpace(j[0])
    ensures ParseNodes(tok + Separator + j) == Prepend(n, ParseNodes(j))
  {
    var s := tok + Separator + j;
    assert SkipSpaces(s) == s by {
      assert s[0] == tok[0];
      SkipNonSpace(s);
    }
    SkipSeparator(j);
    ParseAfterToken(s, n, Separator + j, " " + j, j);
  }

  lemma SkipNonSpace(s: string)
    requires s != [] && !IsSpace(s[0])
    ensures SkipSpaces(s) == s
  {
  }

  /** Unfolds one step of ParseNodes once the token, the separator after it
      and the spaces before the next token are known. */
  lemma ParseAfterToken(s: string, n: Node, rest: string, more: string, j: string)
    requires SkipSpaces(s) == s && ParseToken(s) == Parsed((n, rest))
    requires SkipSpaces(rest) == "#" + more
    requires SkipSpaces(more) == j
    ensures ParseNodes(s) == Prepend(n, ParseNodes(j))
  {
    var after := SkipSpaces(rest);
    assert after[0] == '#' && after[1..] == more;
    ParseNodesSkipsSpaces(more);
  }

  lemma SkipSeparator(j: string)
    requires j != [] && !IsSpace(j[0])
    ensures SkipSpaces(Separator + j) == "#" + (" " + j)
    ensures SkipSpaces(" " + j) == j
  {
    var rest := Separator + j;
    assert rest[0] == ' ' && rest[1..] == "#" + (" " + j);
    assert (" " + j)[0] == ' ' && (" " + j)[1..] == j;
  }

  /** The serialisation of valid nodes starts with a character that is not
      a space. */
  lemma NodesAsBibTeXStart(ns: seq<Node>)
    requires |ns| >= 1 && ValidNode(ns[0])
    ensures NodesAsBibTeX(ns) != [] && !IsSpace(NodesAsBibTeX(ns)[0])
  {
    NodeAsBibTeXStart(ns[0]);
    if |ns| > 1 {
      var tok := NodeAsBibTeX(ns[0]);
      assert (tok + Separator + NodesAsBibTeX(ns[1..]))[0] == tok[0];
    }
  }

  /** Parsing the serialisation of valid nodes gives back the nodes. */
  lemma {:induction false} ParseNodesAsBibTeX(ns: seq<Node>)
    requires |ns| >= 1 && ValidNodes(ns)
    ensures ParseNodes(NodesAsBibTeX(ns)) == Parsed(ns)
    decreases |ns|
  {
    if |ns| == 1 {
      ParseLastNode(ns[0]);
      assert [ns[0]] == ns;
    } else {
      var tail := ns[1..];
      assert ValidNodes(tail) by {
        assert forall i :: 0 <= i < |tail| ==> tail[i] == ns[i + 1];
      }
      var j := NodesAsBibTeX(tail);
      assert j != [] && !IsSpace(j[0]) by {
        NodesAsBibTeXStart(tail);
      }
      assert NodesAsBibTeX(ns) == NodeAsBibTeX(ns[0]) + Separator + j;
      ParseNodesAsBibTeX(tail);
      ParseNodeThenRest(ns[0], j);
      assert [ns[0]] + tail == ns;
    }
  }

  /** Parsing is the inverse of serialisation: a string whose nodes are
      valid comes back as the same string, not inherited, and so equal to
      the original as a complex string. */
  lemma BibTeXRoundTrip(s: BibString)
    requires ValidNodes(Nodes(s))
    ensures ComplexStringWithBibTeXString(StringAsBibTeXString(s)) == Parsed(CopyUninherited(s))
    ensures IsEqualAsComplexString(CopyUninherited(s), s)
  {
    BibTeXStringOfNodes(s, map[]);
    ParseNodesAsBibTeX(Nodes(s));
    EqualAsComplexStringIsSameNodes(CopyUninherited(s), s);
  }

  /** The expanded BibTeX value parses back to the simple string of the
      expanded value, provided that value has balanced braces. */
  lemma ExpandedBibTeXRoundTrip(s: BibString, defs: MacroTable)
    requires Balanced(ExpandedValue(s, defs))
    ensures ComplexStringWithBibTeXString(StringAsExpandedBibTeXString(s, defs))
         == ParseResult<BibString>.Parsed(Simple(ExpandedValue(s, defs), false))
  {
    var q := NodeWithQuotedString(ExpandedValue(s, defs));
    BibTeXStringOfNodes(s, defs);
    assert ValidNodes([q]);
    ParseNodesAsBibTeX([q]);
  }

  /** An opening brace that is never closed makes the value malformed. */
  lemma UnclosedBraceIsMalformed(v: string)
    requires forall i :: 0 <= i < |v| ==> v[i] != '}'
    ensures ComplexStringWithBibTeXString("{" + v) == Malformed(UnbalancedDelimiters)
  {
    NoClosingBrace(v, 0);
    assert ("{" + v)[1..] == v;
  }

  lemma {:induction false} NoClosingBrace(v: string, depth: nat)
    requires forall i :: 0 <= i < |v| ==> v[i] != '}'
    ensures ClosingBrace(v, depth) == None
    decreases |v|
  {
    if v != [] {
      assert forall i :: 0 <= i < |v| - 1 ==> v[1..][i] == v[i + 1];
      NoClosingBrace(v[1..], if v[0] == '{' then depth + 1 else depth);
    }
  }

  // ---------------------------------------------------------------------
  // Malformed values

  /** White space does not take part in brace balance. */
  lemma {:induction false} SkipSpacesNeutral(s: string, depth: nat)
    ensures BalancedFrom(SkipSpaces(s), depth) == BalancedFrom(s, depth)
    decreases |s|
  {
    if s != [] && IsSpace(s[0]) {
      SkipSpacesNeutral(s[1..], depth);
    }
  }

  /** A run of characters that are no braces does not take part in brace
      balance. */
  lemma {:induction false} SpanNeutral(s: string, p: char -> bool, depth: nat)
    requires forall c :: p(c) ==> c != '{' && c != '}'
    ensures BalancedFrom(s[Span(s, p)..], depth) == BalancedFrom(s, depth)
    decreases |s|
  {
    if s != [] && p(s[0]) {
      SpanNeutral(s[1..], p, depth);
      assert s[1..][Span(s[1..], p)..] == s[Span(s, p)..];
    }
  }

  /** Up to its closing brace, braced text is balanced: the brace count
      after it is the count before the opening brace. */
  lemma {:induction false} ClosingBraceNeutral(u: string, depth: nat)
    requires ClosingBrace(u, depth).Some?
    ensures BalancedFrom(u[ClosingBrace(u, depth).value + 1..], 0) == BalancedFrom(u, depth + 1)
    decreases |u|
  {
    if u[0] == '}' && depth == 0 {
    } else {
      var d := if u[0] == '}' then depth - 1 else if u[0] == '{' then depth + 1 else depth;
      ClosingBraceNeutral(u[1..], d);
      assert u[1..][ClosingBrace(u[1..], d).value + 1..] == u[ClosingBrace(u, depth).value + 1..];
    }
  }

  /** Up to its closing double quote, quoted text is balanced. */
  lemma {:induction false} ClosingQuoteNeutral(u: string, depth: nat)
    requires ClosingQuote(u, depth).Some?
    ensures BalancedFrom(u[ClosingQuote(u, depth).value + 1..], 0) == BalancedFrom(u, depth)
    decreases |u|
  {
    if u[0] == '"' && depth == 0 {
    } else {
      var d := if u[0] == '}' then depth - 1 else if u[0] == '{' then depth + 1 else depth;
      ClosingQuoteNeutral(u[1..], d);
      assert u[1..][ClosingQuote(u[1..], d).value + 1..] == u[ClosingQuote(u, depth).value + 1..];
    }
  }

  /** A token that parses takes no part in brace balance. */
  lemma TokenNeutral(t: string)
    requires ParseToken(t).Parsed?
    ensures BalancedFrom(ParseToken(t).value.1, 0) == BalancedFrom(t, 0)
  {
    if t[0] == '{' {
      ClosingBraceNeutral(t[1..], 0);
      assert t[1..][ClosingBrace(t[1..], 0).value + 1..] == ParseToken(t).value.1;
    } else if t[0] == '"' {
      ClosingQuoteNeutral(t[1..], 0);
      assert t[1..][ClosingQuote(t[1..], 0).value + 1..] == ParseToken(t).value.1;
    } else if IsDigit(t[0]) {
      SpanNeutral(t, IsDigit, 0);
    } else {
      SpanNeutral(t, IsMacroChar, 0);
    }
  }

  /** Every value that parses has balanced braces. */
  lemma {:induction false} ParsedIsBalanced(s: string)
    requires ParseNodes(s).Parsed?
    ensures Balanced(s)
    decreases |s|
  {
    var t := SkipSpaces(s);
    SkipSpacesNeutral(s, 0);
    TokenNeutral(t);
    var rest := ParseToken(t).value.1;
    var after := SkipSpaces(rest);
    SkipSpacesNeutral(rest, 0);
    if after != [] {
      ParsedIsBalanced(after[1..]);
    }
  }

  /** A value whose braces do not balance is malformed, wherever the
      unmatched brace is. */
  lemma UnbalancedIsMalformed(s: string)
    requires !Balanced(s)
    ensures ComplexStringWithBibTeXString(s).Malformed?
  {
    if ParseNodes(s).Parsed? {
      ParsedIsBalanced(s);
    }
  }

  /** The parsed tokens with all of `ns` in front; failures pass through. */
  function PrependAll(ns: seq<Node>, r: ParseResult<seq<Node>>): (prepended: ParseResult<seq<Node>>) {
    match r
    case Malformed(e) => Malformed(e)
    case Parsed(ms) => Parsed(ns + ms)
  }

  /** Valid nodes followed by the separator parse to those nodes in front of
      whatever the remainder parses to, failure included. */
  lemma {:induction false} ParseNodesThenRest(ns: seq<Node>, j: string)
    requires |ns| >= 1 && ValidNodes(ns)
    requires j != [] && !IsSpace(j[0])
    ensures ParseNodes(NodesAsBibTeX(ns) + Separator + j) == PrependAll(ns, ParseNodes(j))
    decreases |ns|
  {
    if |ns| == 1 {
      ParseNodeThenRest(ns[0], j);
      PrependOne(ns[0], ParseNodes(j));
      assert [ns[0]] == ns;
    } else {
      var tail := ns[1..];
      assert ValidNodes(tail) by {
        assert forall i :: 0 <= i < |tail| ==> tail[i] == ns[i + 1];
      }
      var tok, k := NodeAsBibTeX(ns[0]), NodesAsBibTeX(tail);
      var j' := k + Separator + j;
      assert j' != [] && !IsSpace(j'[0]) by {
        NodesAsBibTeXStart(tail);
        assert j'[0] == k[0];
      }
      assert NodesAsBibTeX(ns) + Separator + j == tok + Separator + j' by {
        assert NodesAsBibTeX(ns) == tok + Separator + k;
        RegroupSeparated(tok, k, j);
      }
      ParseNodesThenRest(tail, j);
      ParseNodeThenRest(ns[0], j');
      PrependStep(ns[0], tail, ParseNodes(j));
      assert [ns[0]] + tail == ns;
    }
  }

  /** Regroups `tok # k # j` as `tok # (k # j)`. */
  lemma RegroupSeparated(tok: string, k: string, j: string)
    ensures tok + Separator + k + Separator + j == tok + Separator + (k + Separator + j)
  {
  }

  lemma PrependOne(n: Node, r: ParseResult<seq<Node>>)
    ensures Prepend(n, r) == PrependAll([n], r)
  {
  }

  lemma PrependStep(n: Node, tail: seq<Node>, r: ParseResult<seq<Node>>)
    ensures Prepend(n, PrependAll(tail, r)) == PrependAll([n] + tail, r)
  {
    if r.Parsed? {
      assert [n] + (tail + r.value) == ([n] + tail) + r.value;
    }
  }

  /** A value that starts, after white space, with the operator or ends
      there has an empty token. */
  lemma LeadingEmptyToken(s: string)
    requires SkipSpaces(s) == [] || SkipSpaces(s)[0] == '#'
    ensures ParseNodes(s) == Malformed(EmptyToken)
  {
  }

  /** An empty token is malformed: an empty value, a value that starts with
      the operator, and two operators with nothing between them. */
  lemma EmptyTokenIsMalformed(ns: seq<Node>, y: string)
    requires |ns| >= 1 && ValidNodes(ns)
    ensures ComplexStringWithBibTeXString("") == Malformed(EmptyToken)
    ensures ComplexStringWithBibTeXString("#" + y) == Malformed(EmptyToken)
    ensures ComplexStringWithBibTeXString(NodesAsBibTeX(ns) + Separator + ("#" + y)) == Malformed(EmptyToken)
  {
    var h := "#" + y;
    assert h[0] == '#';
    SkipNonSpace(h);
    LeadingEmptyToken(h);
    LeadingEmptyToken("");
    ParseNodesThenRest(ns, h);
  }
}
