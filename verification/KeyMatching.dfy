/**
 Exactly when the patterns for a symbol stack find its stored paths.  An empty first symbol loses its
 separator, and a backslash swallows the character after it; the theorems say which stacks that affects.
 */
module KeyMatching {
  import opened Wrappers
  import opened Graphs
  import opened StorageKeys

  // ---------------------------------------------------------------------------------------------
  // Tokens that match one character each

  predicate OneByOne(tokens: seq<Token>) {
    AnyMany !in tokens
  }

  lemma {:induction false} FitsLength(tokens: seq<Token>, text: string)
    requires OneByOne(tokens) && Fits(tokens, text)
    ensures |tokens| == |text|
    decreases |tokens|
  {
    if tokens != [] {
      assert tokens[0] in tokens;
      FitsLength(tokens[1..], text[1..]);
    }
  }

  /** The character is an escape character that what follows does not survive. */
  predicate LostAt(s: string, i: nat)
    requires i < |s|
  {
    s[i] == ESCAPE && !(i + 1 < |s| && s[i + 1] == '_')
  }

  /** Every escape character is followed by an underscore, whose own escape it then takes. */
  predicate EscapesKept(s: string) {
    forall i :: 0 <= i < |s| ==> !LostAt(s, i)
  }

  predicate WildcardAt(s: string, i: nat)
    requires i < |s|
  {
    s[i] == ESCAPE && i + 1 < |s| && s[i + 1] == '%'
  }

  /** No escape character is followed by a percent sign, which its pattern would turn into a wildcard. */
  predicate NoWildcards(s: string) {
    forall i :: 0 <= i < |s| ==> !WildcardAt(s, i)
  }

  lemma KeptTail(s: string, k: nat)
    requires k <= |s|
    ensures EscapesKept(s) ==> EscapesKept(s[k..])
    ensures NoWildcards(s) ==> NoWildcards(s[k..])
    ensures (forall i :: 0 <= i < k ==> !LostAt(s, i)) && EscapesKept(s[k..]) ==> EscapesKept(s)
  {
    forall i: nat | i < |s| - k
      ensures LostAt(s[k..], i) == LostAt(s, k + i) && WildcardAt(s[k..], i) == WildcardAt(s, k + i)
    {
    }
    forall i | k <= i < |s| && EscapesKept(s[k..])
      ensures !LostAt(s, i)
    {
      assert !LostAt(s[k..], i - k);
    }
  }

  /** What the escaped form of a string is parsed to. */
  function EscapedTokens(s: string): Option<seq<Token>> {
    Parse(Escaped(s))
  }

  /** The same with more of a pattern behind it. */
  function TokensBefore(s: string, rest: string): Option<seq<Token>> {
    Parse(Escaped(s) + rest)
  }

  lemma TokensCons(s: string, rest: string)
    requires s != ""
    ensures s[0] != ESCAPE ==> TokensBefore(s, rest) == Cons(Literal(s[0]), TokensBefore(s[1..], rest))
    ensures |s| > 1 && s[0] == ESCAPE && s[1] == '_' ==>
              TokensBefore(s, rest) == Cons(Literal(ESCAPE), Cons(AnyOne, TokensBefore(s[2..], rest)))
    ensures |s| > 1 && s[0] == ESCAPE && s[1] != '_' && s[1] != '%' ==>
              TokensBefore(s, rest) == Cons(Literal(s[1]), TokensBefore(s[2..], rest))
  {
    hide Parse, Escaped, EscapedChar;
    EscapedFirst(s, rest);
    if s[0] != ESCAPE {
      ParseEscapedChar(s[0], Escaped(s[1..]) + rest);
    } else if |s| > 1 {
      var tail := Escaped(s[2..]) + rest;
      EscapedSecond(s, rest);
      if s[1] == '_' {
        ParseEscapedPair(ESCAPE, ['_'] + tail);
        ParseCons('_', tail);
      } else if s[1] != '%' {
        ParseEscapedPair(s[1], tail);
      }
    }
  }

  lemma EscapedFirst(s: string, rest: string)
    requires s != ""
    ensures Escaped(s) + rest == EscapedChar(s[0]) + (Escaped(s[1..]) + rest)
  {
  }

  lemma EscapedSecond(s: string, rest: string)
    requires |s| > 1 && s[0] == ESCAPE
    ensures s[1] == '_' ==> Escaped(s) + rest == [ESCAPE, ESCAPE] + (['_'] + (Escaped(s[2..]) + rest))
    ensures s[1] != '_' && s[1] != '%' ==> Escaped(s) + rest == [ESCAPE, s[1]] + (Escaped(s[2..]) + rest)
  {
    hide Escaped;
    var tail := Escaped(s[2..]) + rest;
    EscapedFirst(s, rest);
    EscapedFirst(s[1..], rest);
    assert s[1..][1..] == s[2..];
    Regroup([ESCAPE], [s[1]], tail);
    Regroup([ESCAPE], [ESCAPE, s[1]], tail);
    assert [ESCAPE] + [ESCAPE, s[1]] == [ESCAPE, ESCAPE] + [s[1]];
    Regroup([ESCAPE, ESCAPE], [s[1]], tail);
  }

  lemma Regroup(a: string, b: string, c: string)
    ensures (a + b) + c == a + (b + c)
  {
  }

  lemma ParseEscapedPair(c: char, rest: string)
    ensures Parse([ESCAPE, c] + rest) == Cons(Literal(c), Parse(rest))
  {
    assert ([ESCAPE, c] + rest)[2..] == rest;
  }

  lemma EscapedCons(s: string)
    requires s != ""
    ensures s[0] != ESCAPE ==> EscapedTokens(s) == Cons(Literal(s[0]), EscapedTokens(s[1..]))
    ensures s == [ESCAPE] ==> EscapedTokens(s) == None
    ensures |s| > 1 && s[0] == ESCAPE && s[1] == '_' ==>
              EscapedTokens(s) == Cons(Literal(ESCAPE), Cons(AnyOne, EscapedTokens(s[2..])))
    ensures |s| > 1 && s[0] == ESCAPE && s[1] != '_' && s[1] != '%' ==>
              EscapedTokens(s) == Cons(Literal(s[1]), EscapedTokens(s[2..]))
  {
    TokensCons(s, "");
    NothingBehind(s);
    NothingBehind(s[1..]);
    if |s| > 1 {
      NothingBehind(s[2..]);
    }
  }

  lemma NothingBehind(s: string)
    ensures TokensBefore(s, "") == EscapedTokens(s)
  {
    assert Escaped(s) + "" == Escaped(s);
  }

  /** Without wildcards, a lost escape character leaves fewer tokens than characters, or none at all. */
  lemma {:induction false} EscapedWidth(s: string)
    requires NoWildcards(s)
    ensures EscapedTokens(s).Some? ==> OneByOne(EscapedTokens(s).value) && |EscapedTokens(s).value| <= |s|
    ensures EscapedTokens(s).Some? && |EscapedTokens(s).value| == |s| <==> EscapesKept(s)
    ensures EscapesKept(s) ==> Fits(EscapedTokens(s).value, s)
    decreases |s|
  {
    hide EscapedTokens, EscapesKept, NoWildcards;
    if s == "" {
      EmptyTokens();
    } else {
      EscapedCons(s);
      if s[0] != ESCAPE {
        KeptTail(s, 1);
        KeptFirst(s);
        EscapedWidth(s[1..]);
      } else if |s| == 1 {
        KeptFirst(s);
      } else {
        NoWildcardFirst(s);
        KeptTail(s, 2);
        KeptFirst(s);
        EscapedWidth(s[2..]);
        if s[1] == '_' && EscapesKept(s) {
          var tokens := EscapedTokens(s[2..]).value;
          assert s == [ESCAPE] + (['_'] + s[2..]);
          FitsAnyOne(tokens, '_', s[2..]);
          FitsLiteral(ESCAPE, [AnyOne] + tokens, ['_'] + s[2..]);
        }
      }
    }
  }

  lemma EmptyTokens()
    ensures EscapedTokens("") == Some([]) && EscapesKept("")
  {
  }

  lemma NoWildcardFirst(s: string)
    requires NoWildcards(s) && |s| > 1 && s[0] == ESCAPE
    ensures s[1] != '%'
  {
    assert !WildcardAt(s, 0);
  }

  /** Whether all escape characters are kept, by what comes first. */
  lemma KeptFirst(s: string)
    requires s != ""
    ensures s[0] != ESCAPE ==> (EscapesKept(s) <==> EscapesKept(s[1..]))
    ensures s == [ESCAPE] ==> !EscapesKept(s)
    ensures |s| > 1 && s[0] == ESCAPE ==> (EscapesKept(s) <==> s[1] == '_' && EscapesKept(s[2..]))
  {
    assert LostAt(s, 0) <==> s[0] == ESCAPE && !(|s| > 1 && s[1] == '_');
    KeptTail(s, 1);
    if |s| > 1 {
      KeptTail(s, 2);
    }
  }

  /** A pattern that is the escaped form of a text, against a key that is at least as long. */
  lemma EscapedLike(text: string, key: string)
    requires NoWildcards(text) && |text| <= |key|
    ensures |text| < |key| || !EscapesKept(text) ==> !LiteralLike(Escaped(text), key)
    ensures EscapesKept(text) ==> LiteralLike(Escaped(text), text)
  {
    hide EscapesKept, NoWildcards, Fits;
    EscapedWidth(text);
    if LiteralLike(Escaped(text), key) {
      FitsLength(EscapedTokens(text).value, key);
    }
  }

  // ---------------------------------------------------------------------------------------------
  // The text that a pattern stands for

  /** The strings as the patterns join them: no separator after an empty string so far. */
  function Trimmed(strings: seq<string>): string {
    if strings == [] then ""
    else
      var front := Trimmed(strings[..|strings| - 1]);
      front + (if front == "" then "" else [UNIT_SEPARATOR]) + strings[|strings| - 1]
  }

  /** A single string, or a first one that is not empty. */
  predicate KeepsSeparators(strings: seq<string>) {
    |strings| > 1 ==> strings[0] != ""
  }

  predicate AllEmpty(strings: seq<string>) {
    forall i :: 0 <= i < |strings| ==> strings[i] == ""
  }

  lemma {:induction false} EscapedTrimmed(strings: seq<string>)
    ensures EscapedJoin(strings) == Escaped(Trimmed(strings))
  {
    if strings != [] {
      var front, last := strings[..|strings| - 1], strings[|strings| - 1];
      EscapedTrimmed(front);
      EscapedEmpty(Trimmed(front));
      var text := Trimmed(front);
      if text == "" {
        assert "" + "" + Escaped(last) == Escaped(last) && "" + "" + last == last;
      } else {
        EscapedConcat(text + [UNIT_SEPARATOR], last);
        EscapedConcat(text, [UNIT_SEPARATOR]);
        EscapedSeparator();
      }
    }
  }

  lemma {:induction false} TrimmedEmpty(strings: seq<string>)
    ensures Trimmed(strings) == "" <==> AllEmpty(strings)
  {
    if strings != [] {
      var front := strings[..|strings| - 1];
      TrimmedEmpty(front);
      assert strings == front + [strings[|strings| - 1]];
    }
  }

  lemma {:induction false} TrimmedShorter(strings: seq<string>)
    ensures |Trimmed(strings)| <= |Join(strings)|
    ensures KeepsSeparators(strings) ==> Trimmed(strings) == Join(strings)
    ensures !KeepsSeparators(strings) ==> |Trimmed(strings)| < |Join(strings)| && Join(strings)[0] == UNIT_SEPARATOR
  {
    if strings == [] {
    } else if |strings| == 1 {
      assert Trimmed(strings[..0]) == "";
      assert "" + "" + strings[0] == strings[0];
    } else {
      var front := strings[..|strings| - 1];
      TrimmedShorter(front);
      TrimmedEmpty(front);
      assert front[0] == strings[0];
      if |front| == 1 {
        assert Join(front) == front[0];
      }
    }
  }

  // ---------------------------------------------------------------------------------------------
  // A stack's own pattern

  function OwnPattern(strings: seq<string>, variable: bool): string {
    if variable then PatternForPrefix(strings) else PatternForSame(strings)
  }

  ghost predicate AllKept(strings: seq<string>) {
    forall i :: 0 <= i < |strings| ==> EscapesKept(strings[i])
  }

  ghost predicate AllWithoutWildcards(strings: seq<string>) {
    forall i :: 0 <= i < |strings| ==> NoWildcards(strings[i])
  }

  lemma KeptJoined(a: string, c: char, b: string)
    requires c != ESCAPE && c != '_' && c != '%'
    ensures EscapesKept(a + [c] + b) <==> EscapesKept(a) && EscapesKept(b)
    ensures NoWildcards(a) && NoWildcards(b) ==> NoWildcards(a + [c] + b)
  {
    var s := a + [c] + b;
    forall i: nat | i < |s|
      ensures LostAt(s, i) == if i < |a| then LostAt(a, i) else i > |a| && LostAt(b, i - |a| - 1)
      ensures WildcardAt(s, i) == if i < |a| then WildcardAt(a, i) else i > |a| && WildcardAt(b, i - |a| - 1)
    {
    }
    if EscapesKept(s) {
      forall i: nat | i < |a|
        ensures !LostAt(a, i)
      {
        assert !LostAt(s, i);
      }
      forall i: nat | i < |b|
        ensures !LostAt(b, i)
      {
        assert !LostAt(s, |a| + 1 + i);
      }
    }
  }

  lemma {:induction false} TrimmedKept(strings: seq<string>)
    ensures AllKept(strings) ==> EscapesKept(Trimmed(strings))
    ensures EscapesKept(Trimmed(strings)) ==> AllKept(strings)
    ensures AllWithoutWildcards(strings) ==> NoWildcards(Trimmed(strings))
  {
    hide EscapesKept, NoWildcards;
    if strings == [] {
      EmptyTokens();
      EmptyWithoutWildcards();
    } else {
      var front, last := strings[..|strings| - 1], strings[|strings| - 1];
      TrimmedKept(front);
      KeptJoined(Trimmed(front), UNIT_SEPARATOR, last);
      EmptyTokens();
      assert "" + "" + last == last;
      assert strings == front + [last];
    }
  }

  lemma EmptyWithoutWildcards()
    ensures NoWildcards("")
  {
  }

  /** The text that a tagged pattern stands for. */
  lemma TaggedText(strings: seq<string>, variable: bool)
    ensures OwnPattern(strings, variable) == Escaped([Tag(variable), GROUP_SEPARATOR] + Trimmed(strings))
    ensures EscapesKept([Tag(variable), GROUP_SEPARATOR] + Trimmed(strings)) <==> AllKept(strings)
    ensures AllWithoutWildcards(strings) ==> NoWildcards([Tag(variable), GROUP_SEPARATOR] + Trimmed(strings))
  {
    hide EscapesKept, NoWildcards;
    var tag := Tag(variable);
    EscapedTrimmed(strings);
    TrimmedKept(strings);
    EscapedConcat([tag, GROUP_SEPARATOR], Trimmed(strings));
    assert Escaped([tag, GROUP_SEPARATOR]) == [tag, GROUP_SEPARATOR] by {
      assert [tag, GROUP_SEPARATOR][1..] == [GROUP_SEPARATOR] && [GROUP_SEPARATOR][1..] == "";
    }
    assert [tag, GROUP_SEPARATOR] + Trimmed(strings) == [tag] + [GROUP_SEPARATOR] + Trimmed(strings);
    KeptJoined([tag], GROUP_SEPARATOR, Trimmed(strings));
    TagKept(variable);
  }

  lemma TagKept(variable: bool)
    ensures EscapesKept([Tag(variable)]) && NoWildcards([Tag(variable)])
  {
  }

  /**
   Exactly when a stack's own pattern matches its own key, for names without a backslash before a percent
   sign: the first name of several is not empty, and every backslash stands before an underscore.
   */
  lemma OwnPatternMatches(strings: seq<string>, variable: bool)
    requires AllWithoutWildcards(strings)
    ensures LiteralLike(OwnPattern(strings, variable), KeyOf(strings, variable)) <==>
            KeepsSeparators(strings) && AllKept(strings)
  {
    hide AllKept, EscapesKept, NoWildcards, LiteralLike, OwnPattern;
    var head := [Tag(variable), GROUP_SEPARATOR];
    TaggedText(strings, variable);
    TrimmedShorter(strings);
    EscapedLike(head + Trimmed(strings), KeyOf(strings, variable));
  }

  // ---------------------------------------------------------------------------------------------
  // All patterns for a stack, against the key of the same names

  function Separators(s: string): nat {
    if s == "" then 0 else (if s[0] == UNIT_SEPARATOR then 1 else 0) + Separators(s[1..])
  }

  function SeparatorTokens(tokens: seq<Token>): nat {
    if tokens == [] then 0
    else (if tokens[0] == Literal(UNIT_SEPARATOR) then 1 else 0) + SeparatorTokens(tokens[1..])
  }

  /** A text has at least as many separators as its pattern, which ends in a wildcard. */
  lemma {:induction false} EnoughSeparators(tokens: seq<Token>, text: string)
    requires OneByOne(tokens) && Fits(tokens + [AnyMany], text)
    ensures SeparatorTokens(tokens) <= Separators(text)
    decreases |tokens|
  {
    if tokens != [] {
      assert tokens[0] in tokens;
      assert (tokens + [AnyMany])[0] == tokens[0] && (tokens + [AnyMany])[1..] == tokens[1..] + [AnyMany];
      assert OneByOne(tokens[1..]);
      EnoughSeparators(tokens[1..], text[1..]);
    }
  }

  /** The tokens of an escaped string, a separator and a wildcard: at least one separator more than the string has. */
  lemma {:induction false} LongerTokens(s: string) returns (tokens: seq<Token>)
    requires NoWildcards(s)
    ensures TokensBefore(s, [UNIT_SEPARATOR, '%']) == Some(tokens + [AnyMany]) && OneByOne(tokens)
    ensures SeparatorTokens(tokens) > Separators(s)
    decreases |s|
  {
    hide NoWildcards, TokensBefore;
    if s == "" {
      tokens := [Literal(UNIT_SEPARATOR)];
      NoTokensBefore();
    } else if s == [ESCAPE] {
      tokens := [Literal(UNIT_SEPARATOR)];
      EscapedSeparatorTokens();
    } else {
      TokensCons(s, [UNIT_SEPARATOR, '%']);
      var head := if s[0] != ESCAPE then [Literal(s[0])] else if s[1] == '_' then [Literal(ESCAPE), AnyOne]
        else [Literal(s[1])];
      var k := if s[0] != ESCAPE then 1 else 2;
      KeptTail(s, k);
      var more := LongerTokens(s[k..]);
      if s[0] == ESCAPE {
        NoWildcardFirst(s);
        assert s[1..][1..] == s[2..];
      }
      tokens := head + more;
      MoreTokens(head, more);
    }
  }

  lemma MoreTokens(head: seq<Token>, more: seq<Token>)
    requires 0 < |head| <= 2
    ensures Cons(head[0], if |head| == 1 then Some(more + [AnyMany]) else Cons(head[1], Some(more + [AnyMany]))) ==
            Some((head + more) + [AnyMany])
    ensures SeparatorTokens(head + more) ==
            (if head[0] == Literal(UNIT_SEPARATOR) then 1 else 0) +
            (if |head| == 2 && head[1] == Literal(UNIT_SEPARATOR) then 1 else 0) + SeparatorTokens(more)
  {
    if |head| == 1 {
      assert (head + more)[1..] == more;
      assert (head + more) + [AnyMany] == [head[0]] + (more + [AnyMany]);
    } else {
      assert (head + more)[1..] == [head[1]] + more && ([head[1]] + more)[1..] == more;
      assert (head + more) + [AnyMany] == [head[0]] + ([head[1]] + (more + [AnyMany]));
    }
  }

  lemma NoTokensBefore()
    ensures TokensBefore("", [UNIT_SEPARATOR, '%']) == Some([Literal(UNIT_SEPARATOR)] + [AnyMany])
  {
    SeparatorAndMore();
    assert Escaped("") + [UNIT_SEPARATOR, '%'] == [UNIT_SEPARATOR, '%'];
  }

  /** An escape character at the end of a string swallows the separator, but leaves it a separator. */
  lemma EscapedSeparatorTokens()
    ensures TokensBefore([ESCAPE], [UNIT_SEPARATOR, '%']) == Some([Literal(UNIT_SEPARATOR)] + [AnyMany])
    ensures Separators([ESCAPE]) == 0
  {
    assert [ESCAPE][1..] == "" && Escaped([ESCAPE]) + [UNIT_SEPARATOR, '%'] == [ESCAPE, UNIT_SEPARATOR] + ['%'];
    ParseEscapedPair(UNIT_SEPARATOR, ['%']);
    PercentTokens();
  }

  lemma PercentTokens()
    ensures Parse(['%']) == Some([AnyMany])
  {
    var none: seq<Token> := [];
    assert Parse("") == Some(none) && [AnyMany] + none == [AnyMany] && ['%'][1..] == "";
  }

  /** A pattern with any character for a tag, in terms of the rest of the key. */
  lemma UntaggedLike(rest: string, tag: char, text: string)
    ensures LiteralLike(['_', GROUP_SEPARATOR] + rest, [tag, GROUP_SEPARATOR] + text) <==> LiteralLike(rest, text)
  {
    hide Fits;
    ParseCons(GROUP_SEPARATOR, rest);
    ParseCons('_', [GROUP_SEPARATOR] + rest);
    assert ['_'] + ([GROUP_SEPARATOR] + rest) == ['_', GROUP_SEPARATOR] + rest;
    assert [tag] + ([GROUP_SEPARATOR] + text) == [tag, GROUP_SEPARATOR] + text;
    if Parse(rest).Some? {
      var tokens := Parse(rest).value;
      FitsLiteral(GROUP_SEPARATOR, tokens, text);
      FitsAnyOne([Literal(GROUP_SEPARATOR)] + tokens, tag, [GROUP_SEPARATOR] + text);
    }
  }

  /** The pattern for longer stacks never matches the key of the stack itself. */
  lemma LongerIsLonger(strings: seq<string>, variable: bool)
    requires AllWithoutWildcards(strings) && KeepsSeparators(strings)
    ensures !LiteralLike(PatternForLonger(strings), KeyOf(strings, variable))
  {
    hide NoWildcards, Fits, Parse, Escaped;
    EscapedTrimmed(strings);
    TrimmedShorter(strings);
    TrimmedKept(strings);
    var text := Join(strings);
    UntaggedLike(EscapedJoin(strings) + [UNIT_SEPARATOR, '%'], Tag(variable), text);
    var tokens := LongerTokens(text);
    assert TokensBefore(text, [UNIT_SEPARATOR, '%']) == Parse(EscapedJoin(strings) + [UNIT_SEPARATOR, '%']);
    if Fits(tokens + [AnyMany], text) {
      EnoughSeparators(tokens, text);
    }
  }

  lemma TagsDiffer(strings: seq<string>, variable: bool, other: seq<string>)
    ensures !LiteralLike(OwnPattern(strings, variable), KeyOf(other, !variable))
  {
    var tag := Tag(variable);
    var rest := [GROUP_SEPARATOR] + EscapedJoin(strings);
    assert OwnPattern(strings, variable) == [tag] + rest;
    ParseCons(tag, rest);
  }

  /** Patterns for proper prefixes do not match either: they are too short. */
  lemma PrefixTooShort(strings: seq<string>, k: nat, variable: bool)
    requires AllWithoutWildcards(strings) && 0 < k < |strings|
    ensures !LiteralLike(PatternForPrefix(strings[..k]), KeyOf(strings, variable))
  {
    hide NoWildcards, LiteralLike, EscapesKept;
    TaggedText(strings[..k], true);
    TrimmedShorter(strings[..k]);
    JoinSplit(strings, k);
    EscapedLike([Tag(true), GROUP_SEPARATOR] + Trimmed(strings[..k]), KeyOf(strings, variable));
  }

  /**
   Exactly when the query for a stack finds the paths stored for the same names, for names without a backslash
   before a percent sign of which the first is not empty, or there is only one: when every backslash stands
   before an underscore.
   */
  lemma SameNamesFound(strings: seq<string>, queryVariable: bool, patterns: seq<string>, variable: bool)
    requires strings != [] && AllWithoutWildcards(strings) && KeepsSeparators(strings)
    requires ArePatterns(patterns, strings, queryVariable)
    ensures (exists pattern :: pattern in patterns && LiteralLike(pattern, KeyOf(strings, variable))) <==>
            AllKept(strings)
  {
    hide LiteralLike, AllKept, NoWildcards, OwnPattern, KeyOf, PatternForPrefix, PatternForSame, PatternForLonger;
    var key := KeyOf(strings, variable);
    var n := |strings|;
    OwnPatternMatches(strings, variable);
    TagsDiffer(strings, !variable, strings);
    LongerIsLonger(strings, variable);
    OwnPatterns(strings);
    assert strings[..n] == strings;
    assert patterns[n - 1] == PatternForPrefix(strings[..n - 1 + 1]);
    forall pattern | pattern in patterns && LiteralLike(pattern, key)
      ensures AllKept(strings)
    {
      var j :| 0 <= j < |patterns| && patterns[j] == pattern;
      if j < n - 1 {
        PrefixTooShort(strings, j + 1, variable);
      }
    }
    if AllKept(strings) {
      var own := OwnPattern(strings, variable);
      assert own in patterns;
    }
  }

  lemma OwnPatterns(strings: seq<string>)
    ensures OwnPattern(strings, true) == PatternForPrefix(strings) &&
            OwnPattern(strings, false) == PatternForSame(strings)
  {
  }

  // ---------------------------------------------------------------------------------------------
  // All patterns for a stack, against the keys of compatible stacks

  /** A name without backslashes and separators. */
  predicate Simple(name: string) {
    ESCAPE !in name && UNIT_SEPARATOR !in name
  }

  ghost predicate AllSimple(strings: seq<string>) {
    forall i :: 0 <= i < |strings| ==> Simple(strings[i])
  }

  lemma {:induction false} LiteralsFitOnly(s: string, text: string)
    ensures Fits(Literals(s), text) <==> text == s
    ensures Fits(Literals(s) + [AnyMany], text) <==> s <= text
    decreases |s|
  {
    if s == "" {
      assert Literals(s) + [AnyMany] == [AnyMany];
      AnyManyFits(text);
    } else {
      assert Literals(s)[1..] == Literals(s[1..]);
      assert (Literals(s) + [AnyMany])[0] == Literal(s[0]);
      assert (Literals(s) + [AnyMany])[1..] == Literals(s[1..]) + [AnyMany];
      if text != "" {
        LiteralsFitOnly(s[1..], text[1..]);
        assert s == [s[0]] + s[1..] && text == [text[0]] + text[1..];
        assert s <= text <==> s[0] == text[0] && s[1..] <= text[1..];
      }
    }
  }

  /** A pattern without escape characters but those of wildcards matches the text it stands for and nothing else. */
  lemma PlainLike(text: string, key: string)
    requires NoEscapes(text)
    ensures LiteralLike(Escaped(text), key) <==> key == text
    ensures LiteralLike(Escaped(text) + [UNIT_SEPARATOR, '%'], key) <==> text + [UNIT_SEPARATOR] <= key
  {
    hide Parse, Fits, Escaped;
    var none: seq<Token> := [];
    assert Parse("") == Some(none) by { EmptyParse(); }
    ParseEscaped(text, "");
    assert Escaped(text) + "" == Escaped(text) && Literals(text) + none == Literals(text);
    LiteralsFitOnly(text, key);
    SeparatorAndMore();
    ParseEscaped(text, [UNIT_SEPARATOR, '%']);
    var longer := text + [UNIT_SEPARATOR];
    assert Literals(longer) + [AnyMany] == Literals(text) + ([Literal(UNIT_SEPARATOR)] + [AnyMany]);
    LiteralsFitOnly(longer, key);
  }

  lemma EmptyParse()
    ensures Parse("") == Some([])
  {
  }

  lemma {:induction false} TrimmedSimple(strings: seq<string>)
    requires AllSimple(strings)
    ensures NoEscapes(Trimmed(strings))
    ensures Trimmed(strings) != "" ==> Trimmed(strings)[0] != UNIT_SEPARATOR
  {
    if strings != [] {
      var front, last := strings[..|strings| - 1], strings[|strings| - 1];
      TrimmedSimple(front);
      assert Simple(last);
      assert last != "" ==> last[0] in last;
    }
  }

  /** The text of the key is what the stack's patterns stand for, or begins with it and a separator. */
  lemma SimpleLike(strings: seq<string>, tag: bool, text: string)
    requires AllSimple(strings)
    ensures LiteralLike(PatternForPrefix(strings), [Tag(tag), GROUP_SEPARATOR] + text) <==>
            tag && text == Trimmed(strings)
    ensures LiteralLike(PatternForSame(strings), [Tag(tag), GROUP_SEPARATOR] + text) <==>
            !tag && text == Trimmed(strings)
    ensures LiteralLike(PatternForLonger(strings), [Tag(tag), GROUP_SEPARATOR] + text) <==>
            Trimmed(strings) + [UNIT_SEPARATOR] <= text
  {
    hide LiteralLike, Escaped, EscapedJoin, Trimmed;
    TrimmedSimple(strings);
    EscapedTrimmed(strings);
    var key := [Tag(tag), GROUP_SEPARATOR] + text;
    SimpleOwn(strings, true, key);
    SimpleOwn(strings, false, key);
    assert text == key[2..];
    UntaggedLike(EscapedJoin(strings) + [UNIT_SEPARATOR, '%'], Tag(tag), text);
    PlainLike(Trimmed(strings), text);
  }

  lemma SimpleOwn(strings: seq<string>, variable: bool, key: string)
    requires AllSimple(strings)
    ensures LiteralLike(OwnPattern(strings, variable), key) <==>
            key == [Tag(variable), GROUP_SEPARATOR] + Trimmed(strings)
  {
    hide LiteralLike, Escaped, EscapedJoin, EscapesKept, NoWildcards;
    TrimmedSimple(strings);
    TaggedText(strings, variable);
    PlainLike([Tag(variable), GROUP_SEPARATOR] + Trimmed(strings), key);
  }

  /** The same names as far as both go, and a variable on the shorter side. */
  predicate CompatibleNames(a: seq<string>, aVariable: bool, b: seq<string>, bVariable: bool) {
    if |a| == |b| then a == b
    else if |a| < |b| then aVariable && a < b
    else bVariable && b < a
  }

  /** What is found: a separator is lost only if there is one between the names that both stacks have. */
  predicate IsFound(queried: seq<string>, queryVariable: bool, stored: seq<string>) {
    || KeepsSeparators(if |queried| <= |stored| then queried else stored)
    || (queryVariable && AllEmpty(queried))
  }

  lemma Misses(queried: seq<string>, queryVariable: bool, patterns: seq<string>, stored: seq<string>, variable: bool)
    requires AllSimple(queried) && queried != [] && stored != []
    requires ArePatterns(patterns, queried, queryVariable)
    requires CompatibleNames(queried, queryVariable, stored, variable) && !IsFound(queried, queryVariable, stored)
    ensures forall pattern :: pattern in patterns ==> !LiteralLike(pattern, KeyOf(stored, variable))
  {
    hide LiteralLike, Trimmed, PatternForPrefix, PatternForSame, PatternForLonger;
    var text := Join(stored);
    TrimmedShorter(stored);
    TrimmedEmpty(queried);
    TrimmedSimple(queried);
    SimpleLike(queried, variable, text);
    forall pattern | pattern in patterns
      ensures !LiteralLike(pattern, KeyOf(stored, variable))
    {
      var j :| 0 <= j < |patterns| && patterns[j] == pattern;
      if j < |queried| {
        SimpleLike(queried[..j + 1], variable, text);
        TrimmedSimple(queried[..j + 1]);
      }
    }
  }

  lemma Finds(queried: seq<string>, queryVariable: bool, patterns: seq<string>, stored: seq<string>, variable: bool)
    requires AllSimple(queried) && queried != [] && stored != []
    requires ArePatterns(patterns, queried, queryVariable)
    requires CompatibleNames(queried, queryVariable, stored, variable) && IsFound(queried, queryVariable, stored)
    ensures exists pattern :: pattern in patterns && LiteralLike(pattern, KeyOf(stored, variable))
  {
    hide LiteralLike, Trimmed, PatternForPrefix, PatternForSame, PatternForLonger;
    var text := Join(stored);
    TrimmedShorter(stored);
    TrimmedShorter(queried);
    TrimmedEmpty(queried);
    SimpleLike(queried, variable, text);
    var n := |queried|;
    var pattern;
    if |stored| <= n && KeepsSeparators(stored) {
      assert queried[..|stored|] == stored;
      SimpleLike(queried[..|stored|], variable, text);
      pattern := if variable then patterns[|stored| - 1] else patterns[n];
      assert patterns[|stored| - 1] == PatternForPrefix(queried[..|stored| - 1 + 1]);
    } else {
      pattern := patterns[n + 1];
      if |stored| > n {
        JoinSplit(stored, n);
        assert stored[..n] == queried;
      }
    }
    assert pattern in patterns;
  }

  /**
   Exactly when the query for a stack finds a path that is stored for compatible names, if no name has a
   backslash or a separator: when the first of the names that both stacks have is not empty, or the only one;
   or when the queried names are all empty and a variable follows.
   */
  lemma CompatibleFound(queried: seq<string>, queryVariable: bool, patterns: seq<string>, stored: seq<string>,
                        variable: bool)
    requires AllSimple(queried) && queried != [] && stored != []
    requires ArePatterns(patterns, queried, queryVariable)
    requires CompatibleNames(queried, queryVariable, stored, variable)
    ensures (exists pattern :: pattern in patterns && LiteralLike(pattern, KeyOf(stored, variable))) <==>
            IsFound(queried, queryVariable, stored)
  {
    hide LiteralLike, ArePatterns, CompatibleNames, IsFound;
    if IsFound(queried, queryVariable, stored) {
      Finds(queried, queryVariable, patterns, stored, variable);
    } else {
      Misses(queried, queryVariable, patterns, stored, variable);
    }
  }
}
