/**
 The strings under which root paths are stored, and the LIKE patterns that load them: the patterns made
 for a symbol stack match the keys of all stored paths that are compatible with it.
 */
module StorageKeys {
  import opened Wrappers
  import opened Graphs
  import opened Patterns
  import opened RootIndex

  const GROUP_SEPARATOR: char := '\U{241E}'
  const UNIT_SEPARATOR: char := '\U{241F}'
  const ESCAPE: char := '\\'

  // ---------------------------------------------------------------------------------------------
  // LIKE

  datatype Token = Literal(c: char) | AnyOne | AnyMany

  /** A pattern's tokens; None if it ends in a lone escape character. */
  function Parse(pattern: string): Option<seq<Token>> {
    if pattern == "" then Some([])
    else if pattern[0] == ESCAPE then
      if |pattern| == 1 then None else Cons(Literal(pattern[1]), Parse(pattern[2..]))
    else Cons(TokenOf(pattern[0]), Parse(pattern[1..]))
  }

  function TokenOf(c: char): Token {
    if c == '%' then AnyMany else if c == '_' then AnyOne else Literal(c)
  }

  function Cons(t: Token, rest: Option<seq<Token>>): Option<seq<Token>> {
    if rest.None? then None else Some([t] + rest.value)
  }

  predicate Fits(tokens: seq<Token>, text: string)
    decreases |tokens|, |text|
  {
    if tokens == [] then text == ""
    else
      match tokens[0]
      case Literal(c) => text != "" && text[0] == c && Fits(tokens[1..], text[1..])
      case AnyOne => text != "" && Fits(tokens[1..], text[1..])
      case AnyMany => Fits(tokens[1..], text) || (text != "" && Fits(tokens, text[1..]))
  }

  /** LIKE with an escape character, taken literally. */
  predicate LiteralLike(pattern: string, text: string) {
    Parse(pattern).Some? && Fits(Parse(pattern).value, text)
  }

  // ---------------------------------------------------------------------------------------------
  // Keys

  /** The strings, separated. */
  function Join(strings: seq<string>): string {
    if strings == [] then ""
    else if |strings| == 1 then strings[0]
    else Join(strings[..|strings| - 1]) + [UNIT_SEPARATOR] + strings[|strings| - 1]
  }

  function NamesOf(names: Symbol -> string, symbols: seq<Symbol>): (r: seq<string>)
    ensures |r| == |symbols|
  {
    seq(|symbols|, i requires 0 <= i < |symbols| => names(symbols[i]))
  }

  function Tag(variable: bool): char {
    if variable then 'V' else 'X'
  }

  function KeyOf(strings: seq<string>, variable: bool): string {
    [Tag(variable), GROUP_SEPARATOR] + Join(strings)
  }

  method StorageKey(stack: PartialSymbolStack, names: Symbol -> string) returns (key: string)
    ensures key == KeyOf(NamesOf(names, SymbolsOf(stack)), stack.variable.Some?)
  {
    key := "";
    if stack.variable.Some? {
      key := key + ['V', GROUP_SEPARATOR];
    } else {
      key := key + ['X', GROUP_SEPARATOR];
    }
    ghost var all := NamesOf(names, SymbolsOf(stack));
    var joined := "";
    for i := 0 to |stack.symbols|
      invariant joined == Join(all[..i])
    {
      assert all[..i + 1][..i] == all[..i];
      if i > 0 {
        joined := joined + [UNIT_SEPARATOR];
      }
      joined := joined + names(stack.symbols[i].symbol);
    }
    assert all[..|all|] == all;
    key := key + joined;
  }

  /** Escapes the wildcards, but not the escape character itself. */
  function Escaped(s: string): string {
    if s == "" then "" else EscapedChar(s[0]) + Escaped(s[1..])
  }

  function EscapedChar(c: char): string {
    if c == '%' || c == '_' then [ESCAPE, c] else [c]
  }

  /** The joined escaped strings as the patterns have them: no separator after an empty string so far. */
  function EscapedJoin(strings: seq<string>): string {
    if strings == [] then ""
    else
      var front := EscapedJoin(strings[..|strings| - 1]);
      front + (if front == "" then "" else [UNIT_SEPARATOR]) + Escaped(strings[|strings| - 1])
  }

  function PatternForPrefix(strings: seq<string>): string {
    ['V', GROUP_SEPARATOR] + EscapedJoin(strings)
  }

  function PatternForSame(strings: seq<string>): string {
    ['X', GROUP_SEPARATOR] + EscapedJoin(strings)
  }

  function PatternForLonger(strings: seq<string>): string {
    ['_', GROUP_SEPARATOR] + (EscapedJoin(strings) + [UNIT_SEPARATOR, '%'])
  }

  ghost predicate ArePatterns(patterns: seq<string>, strings: seq<string>, variable: bool) {
    && |patterns| == |strings| + 1 + (if variable then 1 else 0)
    && (forall j :: 0 <= j < |strings| ==> patterns[j] == PatternForPrefix(strings[..j + 1]))
    && patterns[|strings|] == PatternForSame(strings)
    && (variable ==> patterns[|strings| + 1] == PatternForLonger(strings))
  }

  method StorageKeyPatterns(stack: PartialSymbolStack, names: Symbol -> string) returns (patterns: seq<string>)
    ensures ArePatterns(patterns, NamesOf(names, SymbolsOf(stack)), stack.variable.Some?)
  {
    hide Escaped;
    ghost var all := NamesOf(names, SymbolsOf(stack));
    patterns := [];
    var symbols := "";
    var rest := stack.symbols;
    ghost var i := 0;
    while rest != []
      invariant 0 <= i <= |all| && rest == stack.symbols[i..]
      invariant symbols == EscapedJoin(all[..i])
      invariant |patterns| == i && forall j :: 0 <= j < i ==> patterns[j] == PatternForPrefix(all[..j + 1])
      decreases |rest|
    {
      assert all[..i + 1][..i] == all[..i] && all[i] == names(rest[0].symbol);
      if symbols != "" {
        symbols := symbols + [UNIT_SEPARATOR];
      }
      symbols := symbols + Escaped(names(rest[0].symbol));
      rest := rest[1..];
      patterns := patterns + [['V', GROUP_SEPARATOR] + symbols];
      i := i + 1;
    }
    assert all[..|all|] == all;
    patterns := patterns + [['X', GROUP_SEPARATOR] + symbols];
    if stack.variable.Some? {
      patterns := patterns + [['_', GROUP_SEPARATOR] + (symbols + [UNIT_SEPARATOR, '%'])];
    }
  }

  // ---------------------------------------------------------------------------------------------
  // Patterns match keys

  predicate NoEscapes(s: string) {
    ESCAPE !in s
  }

  /** What a queried stack must be like for its patterns to match: see the counterexamples below. */
  ghost predicate Queryable(strings: seq<string>) {
    && (|strings| > 1 ==> strings[0] != "")
    && forall i :: 0 <= i < |strings| ==> NoEscapes(strings[i])
  }

  function Literals(s: string): seq<Token> {
    seq(|s|, i requires 0 <= i < |s| => Literal(s[i]))
  }

  lemma ParseCons(c: char, rest: string)
    requires c != ESCAPE
    ensures Parse([c] + rest) == Cons(TokenOf(c), Parse(rest))
  {
    assert ([c] + rest)[1..] == rest;
  }

  lemma ParseEscapedChar(c: char, rest: string)
    requires c != ESCAPE
    ensures Parse(EscapedChar(c) + rest) == Cons(Literal(c), Parse(rest))
  {
    if c == '%' || c == '_' {
      assert ([ESCAPE, c] + rest)[2..] == rest;
    } else {
      ParseCons(c, rest);
    }
  }

  lemma FitsLiteral(c: char, tokens: seq<Token>, text: string)
    ensures Fits([Literal(c)] + tokens, [c] + text) <==> Fits(tokens, text)
  {
    assert ([Literal(c)] + tokens)[1..] == tokens && ([c] + text)[1..] == text;
  }

  lemma FitsAnyOne(tokens: seq<Token>, c: char, text: string)
    ensures Fits([AnyOne] + tokens, [c] + text) <==> Fits(tokens, text)
  {
    assert ([AnyOne] + tokens)[1..] == tokens && ([c] + text)[1..] == text;
  }

  lemma {:induction false} EscapedConcat(a: string, b: string)
    ensures Escaped(a + b) == Escaped(a) + Escaped(b)
  {
    hide EscapedChar;
    if a == "" {
      assert a + b == b;
    } else {
      EscapedConcat(a[1..], b);
      assert (a + b)[1..] == a[1..] + b;
      assert EscapedChar(a[0]) + (Escaped(a[1..]) + Escaped(b)) == (EscapedChar(a[0]) + Escaped(a[1..])) + Escaped(b);
    }
  }

  /** The escaped form of a string without escape characters stands for that string. */
  lemma {:induction false} ParseEscaped(s: string, rest: string)
    requires NoEscapes(s) && Parse(rest).Some?
    ensures Parse(Escaped(s) + rest) == Some(Literals(s) + Parse(rest).value)
  {
    hide Parse, EscapedChar;
    if s == "" {
      assert Escaped(s) + rest == rest && Literals(s) + Parse(rest).value == Parse(rest).value;
    } else {
      var c, tail := s[0], s[1..];
      assert c in s;
      ParseEscaped(tail, rest);
      ParseEscapedChar(c, Escaped(tail) + rest);
      assert Escaped(s) + rest == EscapedChar(c) + (Escaped(tail) + rest);
      assert Literals(s) == [Literal(c)] + Literals(tail);
      assert [Literal(c)] + (Literals(tail) + Parse(rest).value) == Literals(s) + Parse(rest).value;
    }
  }

  lemma {:induction false} LiteralsFit(s: string, tokens: seq<Token>, text: string)
    requires Fits(tokens, text)
    ensures Fits(Literals(s) + tokens, s + text)
  {
    hide Fits;
    if s == "" {
      assert Literals(s) + tokens == tokens && s + text == text;
    } else {
      var c, tail := s[0], s[1..];
      LiteralsFit(tail, tokens, text);
      FitsLiteral(c, Literals(tail) + tokens, tail + text);
      assert Literals(s) + tokens == [Literal(c)] + (Literals(tail) + tokens);
      assert s + text == [c] + (tail + text);
    }
  }

  lemma {:induction false} AnyManyFits(text: string)
    ensures Fits([AnyMany], text)
  {
    if text == "" {
      assert [AnyMany][1..] == [];
    } else {
      AnyManyFits(text[1..]);
    }
  }

  /** A pattern made of a tag or any character, the separator, an escaped string and more. */
  lemma TaggedLike(head: char, tag: char, s: string, rest: string, text: string)
    requires head == '_' || (head == tag && tag in {'V', 'X'})
    requires NoEscapes(s) && LiteralLike(rest, text)
    ensures LiteralLike([head, GROUP_SEPARATOR] + (Escaped(s) + rest), [tag, GROUP_SEPARATOR] + (s + text))
  {
    hide Parse, Fits, Escaped;
    var tokens := Literals(s) + Parse(rest).value;
    ParseEscaped(s, rest);
    LiteralsFit(s, Parse(rest).value, text);
    ParseCons(GROUP_SEPARATOR, Escaped(s) + rest);
    ParseCons(head, [GROUP_SEPARATOR] + (Escaped(s) + rest));
    assert [head] + ([GROUP_SEPARATOR] + (Escaped(s) + rest)) == [head, GROUP_SEPARATOR] + (Escaped(s) + rest);
    FitsLiteral(GROUP_SEPARATOR, tokens, s + text);
    FitsLiteral(head, [Literal(GROUP_SEPARATOR)] + tokens, [GROUP_SEPARATOR] + (s + text));
    FitsAnyOne([Literal(GROUP_SEPARATOR)] + tokens, tag, [GROUP_SEPARATOR] + (s + text));
    assert [tag] + ([GROUP_SEPARATOR] + (s + text)) == [tag, GROUP_SEPARATOR] + (s + text);
  }

  lemma {:induction false} EscapedJoinIs(strings: seq<string>)
    requires Queryable(strings)
    ensures EscapedJoin(strings) == Escaped(Join(strings))
    ensures NoEscapes(Join(strings))
    ensures strings != [] && strings[0] != "" ==> Join(strings) != ""
  {
    if strings == [] {
    } else if |strings| == 1 {
      assert strings[..0] == [];
      assert EscapedJoin(strings[..0]) == "";
      assert EscapedJoin(strings) == "" + "" + Escaped(strings[0]);
    } else {
      var front, last := strings[..|strings| - 1], strings[|strings| - 1];
      EscapedJoinIs(front);
      EscapedConcat(Join(front) + [UNIT_SEPARATOR], last);
      EscapedConcat(Join(front), [UNIT_SEPARATOR]);
      EscapedSeparator();
      EscapedEmpty(Join(front));
    }
  }

  lemma EscapedSeparator()
    ensures Escaped([UNIT_SEPARATOR]) == [UNIT_SEPARATOR]
  {
    assert [UNIT_SEPARATOR][..0] == "";
  }

  lemma EscapedEmpty(s: string)
    ensures Escaped(s) == "" <==> s == ""
  {
  }

  /** The patterns for a stack and its prefixes match the keys of the same symbols. */
  lemma SamePatternMatches(strings: seq<string>, variable: bool)
    requires Queryable(strings)
    ensures LiteralLike(if variable then PatternForPrefix(strings) else PatternForSame(strings),
                        KeyOf(strings, variable))
  {
    EscapedJoinIs(strings);
    assert LiteralLike("", "");
    TaggedLike(Tag(variable), Tag(variable), Join(strings), "", "");
    assert Escaped(Join(strings)) + "" == EscapedJoin(strings) && Join(strings) + "" == Join(strings);
  }

  lemma {:induction false} JoinSplit(strings: seq<string>, k: nat)
    requires 0 < k < |strings|
    ensures Join(strings) == Join(strings[..k]) + [UNIT_SEPARATOR] + Join(strings[k..])
  {
    var front, last := strings[..|strings| - 1], strings[|strings| - 1];
    if k == |strings| - 1 {
      assert strings[k..] == [last];
    } else {
      JoinSplit(front, k);
      assert front[..k] == strings[..k];
      assert strings[k..][..|strings| - k - 1] == front[k..];
      assert Join(strings[k..]) == Join(front[k..]) + [UNIT_SEPARATOR] + last;
    }
  }

  /** The pattern for stacks that extend this one matches them all, with a variable or without. */
  lemma LongerPatternMatches(strings: seq<string>, longer: seq<string>, variable: bool)
    requires Queryable(strings) && strings != [] && strings < longer
    ensures LiteralLike(PatternForLonger(strings), KeyOf(longer, variable))
  {
    hide Parse, Fits, Escaped, Join, EscapedJoin;
    var tail := Join(longer[|strings|..]);
    EscapedJoinIs(strings);
    JoinSplit(longer, |strings|);
    assert longer[..|strings|] == strings;
    AnyManyFits(tail);
    FitsLiteral(UNIT_SEPARATOR, [AnyMany], tail);
    SeparatorAndMore();
    TaggedLike('_', Tag(variable), Join(strings), [UNIT_SEPARATOR, '%'], [UNIT_SEPARATOR] + tail);
    assert Join(longer) == Join(strings) + ([UNIT_SEPARATOR] + tail);
  }

  lemma SeparatorAndMore()
    ensures Parse([UNIT_SEPARATOR, '%']) == Some([Literal(UNIT_SEPARATOR)] + [AnyMany])
  {
    var none: seq<Token> := [];
    assert Parse("") == Some(none) && [AnyMany] + none == [AnyMany];
    ParseCons('%', "");
    ParseCons(UNIT_SEPARATOR, ['%']);
    assert [UNIT_SEPARATOR] + ['%'] == [UNIT_SEPARATOR, '%'] && ['%'] + "" == ['%'];
  }

  // ---------------------------------------------------------------------------------------------
  // Queries whose patterns do not match

  /** A symbol with a backslash: the pattern does not even match the key of that very symbol. */
  lemma BackslashNotFound(variable: bool)
    ensures var strings := [['a', ESCAPE, 'b']];
            !LiteralLike(if variable then PatternForPrefix(strings) else PatternForSame(strings),
                         KeyOf(strings, variable))
  {
    var name := ['a', ESCAPE, 'b'];
    var strings := [name];
    assert strings[..0] == [] && Escaped("") == "" && Escaped(['b']) == ['b'] by { assert ['b'][1..] == ""; }
    assert Escaped([ESCAPE, 'b']) == [ESCAPE, 'b'] by { assert [ESCAPE, 'b'][1..] == ['b']; }
    assert Escaped(name) == name by { assert name[1..] == [ESCAPE, 'b']; }
    assert EscapedJoin(strings) == name;
    var tag := Tag(variable);
    var pattern := [tag, GROUP_SEPARATOR] + name;
    ParseCons(tag, [GROUP_SEPARATOR] + name);
    ParseCons(GROUP_SEPARATOR, name);
    ParseCons('a', [ESCAPE, 'b']);
    assert [ESCAPE, 'b'][2..] == "" && Parse([ESCAPE, 'b']) == Some([Literal('b')] + []);
    assert [tag] + ([GROUP_SEPARATOR] + name) == pattern && ['a'] + [ESCAPE, 'b'] == name;
    var tokens := [Literal('a')] + [Literal('b')];
    assert [Literal('b')] + [] == [Literal('b')];
    FitsLiteral(tag, [Literal(GROUP_SEPARATOR)] + tokens, [GROUP_SEPARATOR] + name);
    FitsLiteral(GROUP_SEPARATOR, tokens, name);
    FitsLiteral('a', [Literal('b')], [ESCAPE, 'b']);
  }

  /** An empty symbol in front of another one: the pattern lacks the separator that the key has. */
  lemma EmptySymbolNotFound(variable: bool)
    ensures var strings := ["", "b"];
            !LiteralLike(if variable then PatternForPrefix(strings) else PatternForSame(strings),
                         KeyOf(strings, variable))
  {
    var strings := ["", "b"];
    assert strings[..1] == [""] && [""][..0] == [];
    assert Escaped("") == "" && Escaped("b") == "b" by { assert "b"[1..] == ""; }
    assert EscapedJoin([""]) == "" && EscapedJoin(strings) == "b" && Join(strings) == [UNIT_SEPARATOR] + "b";
    var tag := Tag(variable);
    ParseCons(tag, [GROUP_SEPARATOR] + "b");
    ParseCons(GROUP_SEPARATOR, "b");
    assert Parse("b") == Some([Literal('b')]) by {
      ParseCons('b', "");
      assert ['b'] + "" == "b" && [Literal('b')] + [] == [Literal('b')];
    }
    assert [tag] + ([GROUP_SEPARATOR] + "b") == [tag, GROUP_SEPARATOR] + "b";
    FitsLiteral(tag, [Literal(GROUP_SEPARATOR)] + [Literal('b')], [GROUP_SEPARATOR] + Join(strings));
    FitsLiteral(GROUP_SEPARATOR, [Literal('b')], Join(strings));
    assert [tag] + ([GROUP_SEPARATOR] + Join(strings)) == KeyOf(strings, variable);
  }
}
