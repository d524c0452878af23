/** Which token stands at the start of normal code. */
module Lexemes {
  import opened Words
  import opened CSyntax
  import opened Tokenizer

  // ----- words

  predicate WordChar(c: char) {
    'a' <= c <= 'z' || 'A' <= c <= 'Z' || c == '_' || '0' <= c <= '9'
  }

  /** A word that ends where `rest` begins. */
  ghost predicate IsWord(word: string, rest: string) {
    && word != "" && !('0' <= word[0] <= '9')
    && (forall i | 0 <= i < |word| :: WordChar(word[i]))
    && (rest == "" || !WordChar(rest[0]))
  }

  /** The blank that keywords need behind them. */
  predicate BlankNext(rest: string) {
    rest != "" && (rest[0] == '\n' || rest[0] == '\t' || rest[0] == ' ')
  }

  lemma KeywordLetters()
    ensures forall k | k in C_KEYWORDS :: forall i | 0 <= i < |k| :: 'a' <= k[i] <= 'z'
  {
  }

  /** The keyword is not the beginning of another one. */
  ghost predicate Alone(k: string) {
    forall l | l in C_KEYWORDS && k <= l :: k == l
  }

  /** The keywords that begin with a character. */
  function StartingWith(c: char): seq<string> {
    match c
    case 'a' => ["auto"]
    case 'b' => ["break"]
    case 'c' => ["case", "continue", "const"]
    case 'd' => ["default", "do"]
    case 'e' => ["else", "enum", "extern"]
    case 'f' => ["for"]
    case 'g' => ["goto"]
    case 'i' => ["if"]
    case 'r' => ["return", "register", "restrict"]
    case 's' => ["switch", "struct", "static"]
    case 't' => ["typedef"]
    case 'u' => ["union"]
    case 'v' => ["volatile"]
    case 'w' => ["while"]
    case _ => []
  }

  ghost predicate ByStart(k: string) {
    k != "" && k in StartingWith(k[0])
  }

  lemma FirstByStart()
    ensures forall i | 0 <= i < 12 :: ByStart(C_KEYWORDS[i])
  {
  }

  lemma SecondByStart()
    ensures forall i | 12 <= i < 23 :: ByStart(C_KEYWORDS[i])
  {
  }

  lemma KeywordsByStart()
    ensures forall k | k in C_KEYWORDS :: ByStart(k)
  {
    hide ByStart;
    FirstByStart();
    SecondByStart();
  }

  lemma GroupsPrefixFree(c: char)
    ensures forall k, l | k in StartingWith(c) && l in StartingWith(c) && k <= l :: k == l
  {
    if c == 'c' {
      Differ("case", "continue", 1);
      Differ("case", "const", 1);
      Differ("continue", "const", 3);
    } else if c == 'd' {
      Differ("default", "do", 1);
    } else if c == 'e' {
      Differ("else", "enum", 1);
      Differ("else", "extern", 1);
      Differ("enum", "extern", 1);
    } else if c == 'r' {
      Differ("return", "register", 2);
      Differ("return", "restrict", 2);
      Differ("register", "restrict", 2);
    } else if c == 's' {
      Differ("switch", "struct", 1);
      Differ("switch", "static", 1);
      Differ("struct", "static", 2);
    }
  }

  lemma Differ(k: string, l: string, i: nat)
    requires i < |k| && i < |l| && k[i] != l[i]
    ensures !(k <= l) && !(l <= k)
  {
  }

  lemma KeywordsPrefixFree()
    ensures forall k | k in C_KEYWORDS :: Alone(k)
  {
    hide C_KEYWORDS, StartingWith;
    KeywordsByStart();
    forall k, l | k in C_KEYWORDS && l in C_KEYWORDS && k <= l
      ensures k == l
    {
      assert k[0] == l[0];
      GroupsPrefixFree(k[0]);
    }
  }

  /** A word of lower-case letters in front of the code is inside its first word. */
  lemma PrefixInWord(p: string, word: string, rest: string)
    requires IsWord(word, rest) && forall i | 0 <= i < |p| :: 'a' <= p[i] <= 'z'
    ensures p <= word + rest <==> p <= word
  {
    assert rest != "" ==> (word + rest)[|word|] == rest[0];
  }

  lemma KeywordExactly(word: string, rest: string)
    requires IsWord(word, rest)
    ensures KeywordRegex(word + rest) <==> word in C_KEYWORDS && BlankNext(rest)
    ensures KeywordRegex(word + rest) ==> FindPrefix(word + rest, C_KEYWORDS) == Some(word)
  {
    hide FindPrefix, C_KEYWORDS;
    var code := word + rest;
    KeywordLetters();
    forall k | k in C_KEYWORDS
      ensures k <= code <==> k <= word
      ensures k < word ==> WordChar(code[|k|])
    {
      PrefixInWord(k, word, rest);
    }
    if KeywordRegex(code) {
      var k :| k in C_KEYWORDS && k <= code && At(code, |k|, c => c == '\n' || c == '\t' || c == ' ');
      assert k == word;
      KeywordFound(code);
      KeywordsPrefixFree();
    }
    if word in C_KEYWORDS && BlankNext(rest) {
      assert code[|word|] == rest[0];
      assert At(code, |word|, c => c == '\n' || c == '\t' || c == ' ');
    }
  }

  lemma SizeofOnly(word: string, rest: string)
    requires IsWord(word, rest)
    ensures FindPrefix(word + rest, C_OPERATORS) == (if "sizeof" <= word then Some("sizeof") else None)
    ensures FindPrefix(word + rest, C_SPECIAL_SYMBOLS) == None
  {
    hide FindPrefix, C_OPERATORS, C_SPECIAL_SYMBOLS;
    var code := word + rest;
    PrefixInWord("sizeof", word, rest);
    LetterStarts();
    assert code[0] == word[0] && WordChar(word[0]);
    NotListed(code, C_SPECIAL_SYMBOLS);
    assert forall p | p in C_OPERATORS && p <= code :: p == "sizeof";
  }

  ghost predicate NoLetterStart(p: string) {
    p != "" && !WordChar(p[0])
  }

  lemma FirstOperatorStarts()
    ensures forall i | 0 <= i < 19 :: NoLetterStart(C_OPERATORS[i])
  {
  }

  lemma SecondOperatorStarts()
    ensures forall i | 19 <= i < 37 :: NoLetterStart(C_OPERATORS[i])
    ensures |C_OPERATORS| == 38 && C_OPERATORS[37] == "sizeof"
  {
  }

  lemma LetterStarts()
    ensures forall p | p in C_OPERATORS :: p != "sizeof" ==> NoLetterStart(p)
    ensures forall p | p in C_SPECIAL_SYMBOLS :: NoLetterStart(p)
    ensures "sizeof" in C_OPERATORS
  {
    FirstOperatorStarts();
    SecondOperatorStarts();
    hide C_OPERATORS;
    assert forall p | p in C_OPERATORS :: p == "sizeof" || NoLetterStart(p);
  }

  lemma {:induction false} SpanExactly(s: string, i: nat, end: nat, class_: char -> bool)
    requires i <= end <= |s| && (forall k | i <= k < end :: class_(s[k])) && (end < |s| ==> !class_(s[end]))
    ensures Span(s, i, class_) == end
    decreases end - i
  {
    if i < end {
      SpanExactly(s, i + 1, end, class_);
    }
  }

  lemma WordIsIdentifier(word: string, rest: string)
    requires IsWord(word, rest)
    ensures LiteralRegex(word + rest).None? && WhitespaceRegex(word + rest).None?
    ensures IdentifierRegex(word + rest) == Some(|word|)
  {
    var code := word + rest;
    assert code[0] == word[0];
    SpanExactly(code, 0, 0, IsSpace);
    SpanExactly(code, 1, |word|, c => IsLetter(c) || IsDigit(c));
  }

  /**
   * A word is a keyword if it is listed as one and a blank follows; otherwise it is cut
   * behind `sizeof`, if it begins so, or is one token: a type if it is a built-in one, and
   * an identifier in all other cases.
   */
  lemma WordToken(word: string, rest: string)
    requires IsWord(word, rest)
    ensures Scan(NormalMode, word + rest) ==
            (NormalMode,
             [if word in C_KEYWORDS && BlankNext(rest) then Token(TtKeyword, word)
              else if "sizeof" <= word then Token(TtOperator, "sizeof")
              else if word in C_BUILTIN_TYPES then Token(TtType, word)
              else Token(TtIdentifier, word)])
  {
    hide FindPrefix, KeywordRegex, LiteralRegex, WhitespaceRegex, IdentifierRegex, C_KEYWORDS;
    var code := word + rest;
    assert code[0] == word[0] && code[..|word|] == word;
    KeywordExactly(word, rest);
    SizeofOnly(word, rest);
    WordIsIdentifier(word, rest);
    PrefixInWord("sizeof", word, rest);
    if "sizeof" <= word {
      assert code[..6] == "sizeof";
    }
  }

  /** The types that need no declaration. */
  lemma BuiltinTypes(word: string)
    ensures word in C_BUILTIN_TYPES <==>
            word in {"char", "short", "int", "long", "signed", "unsigned", "float", "double", "void"}
  {
    assert C_BUILTIN_TYPES[0] == "char" && C_BUILTIN_TYPES[1] == "short" && C_BUILTIN_TYPES[2] == "int";
    assert C_BUILTIN_TYPES[3] == "long" && C_BUILTIN_TYPES[4] == "signed" && C_BUILTIN_TYPES[5] == "unsigned";
    assert C_BUILTIN_TYPES[6] == "float" && C_BUILTIN_TYPES[7] == "double" && C_BUILTIN_TYPES[8] == "void";
  }

  // ----- operators and symbols

  lemma OperatorLengths()
    ensures |C_OPERATORS| == 38
    ensures forall i | 0 <= i < 2 :: |C_OPERATORS[i]| == 3
    ensures forall i | 2 <= i < 21 :: |C_OPERATORS[i]| == 2
    ensures forall i | 21 <= i < 37 :: |C_OPERATORS[i]| == 1
  {
  }

  /** FindPrefix finds the first listed one. */
  lemma {:induction false} FoundFirst(code: string, prefixes: seq<string>) returns (i: nat)
    requires FindPrefix(code, prefixes).Some?
    ensures i < |prefixes| && prefixes[i] == FindPrefix(code, prefixes).value
    ensures forall j | 0 <= j < i :: !(prefixes[j] <= code)
  {
    if prefixes[0] <= code {
      i := 0;
    } else {
      var k := FoundFirst(code, prefixes[1..]);
      i := k + 1;
    }
  }

  /** In a list that is ordered like that of the operators, the first one found is the longest. */
  lemma LongestOf(code: string, list: seq<string>)
    requires |list| == 38 && FindPrefix(code, list).Some?
    requires forall i, j | 0 <= i < j < 37 :: |list[i]| >= |list[j]|
    requires list[37] == "sizeof" && forall i | 0 <= i < 37 :: list[i] != "" && list[i][0] != 's'
    ensures forall j | 0 <= j < 38 && list[j] <= code :: |list[j]| <= |FindPrefix(code, list).value|
  {
    var i := FoundFirst(code, list);
    assert list[i][0] == code[0];
    forall j | 0 <= j < 38 && list[j] <= code
      ensures |list[j]| <= |list[i]|
    {
      assert list[j][0] == code[0];
    }
  }

  /** Of all operators that the code begins with, the longest is found. */
  lemma LongestOperator(code: string)
    requires FindPrefix(code, C_OPERATORS).Some?
    ensures forall p | p in C_OPERATORS && p <= code :: |p| <= |FindPrefix(code, C_OPERATORS).value|
  {
    hide C_OPERATORS, FindPrefix;
    OperatorLengths();
    FirstOperatorStarts();
    SecondOperatorStarts();
    assert forall i | 0 <= i < 37 :: NoLetterStart(C_OPERATORS[i]);
    LongestOf(code, C_OPERATORS);
  }

  /** Where no comment begins, the longest operator is one token. */
  lemma OperatorToken(code: string, operator: string)
    requires operator in C_OPERATORS && operator != "sizeof" && operator <= code
    requires forall p | p in C_OPERATORS && p <= code :: |p| <= |operator|
    requires !("/*" <= code) && !("//" <= code) && !("*/" <= code)
    ensures Scan(NormalMode, code) == (NormalMode, [Token(TtOperator, operator)])
  {
    hide FindPrefix, KeywordRegex, C_OPERATORS, C_KEYWORDS;
    LetterStarts();
    assert operator[0] == code[0];
    KeywordStarts();
    assert !KeywordRegex(code) by {
      assert forall k | k in C_KEYWORDS :: k[0] != code[0];
      NotKeyword(code);
    }
    assert FindPrefix(code, C_OPERATORS).Some?;
    LongestOperator(code);
    assert code[..|operator|] == operator;
  }

  lemma NotKeyword(code: string)
    requires code != "" && forall k | k in C_KEYWORDS :: k != "" && k[0] != code[0]
    ensures !KeywordRegex(code)
  {
    hide C_KEYWORDS;
  }

  /** Brackets, commas and semicolons. */
  lemma SymbolToken(c: char, rest: string)
    requires c in "()[]{},;"
    ensures Scan(NormalMode, [c] + rest) == (NormalMode, [Token(TtSpecialSymbol, [c])])
  {
    hide FindPrefix, KeywordRegex, C_OPERATORS, C_KEYWORDS;
    var code := [c] + rest;
    assert code[0] == c && code[..1] == [c];
    KeywordStarts();
    NotKeyword(code);
    SymbolStartsNoOperator(c);
    NotListed(code, C_OPERATORS);
    SymbolFound(c, code);
  }

  ghost predicate NoSymbolStart(p: string) {
    p != "" && p[0] !in "()[]{},;"
  }

  lemma FirstNoSymbol()
    ensures forall i | 0 <= i < 19 :: NoSymbolStart(C_OPERATORS[i])
  {
  }

  lemma SecondNoSymbol()
    ensures |C_OPERATORS| == 38 && forall i | 19 <= i < 38 :: NoSymbolStart(C_OPERATORS[i])
  {
  }

  lemma SymbolStartsNoOperator(c: char)
    requires c in "()[]{},;"
    ensures forall p | p in C_OPERATORS :: p != "" && p[0] != c
  {
    hide C_OPERATORS;
    FirstNoSymbol();
    SecondNoSymbol();
    assert forall p | p in C_OPERATORS :: NoSymbolStart(p);
  }

  lemma SymbolFound(c: char, code: string)
    requires c in "()[]{},;" && code != "" && code[0] == c
    ensures FindPrefix(code, C_SPECIAL_SYMBOLS) == Some([c])
  {
    hide FindPrefix;
    assert forall p | p in C_SPECIAL_SYMBOLS && p[0] == c :: p == [c];
    assert [c] in C_SPECIAL_SYMBOLS && [c] <= code;
  }

  // ----- blanks, strings and numbers

  /** A decimal number with its suffix is one constant. */
  lemma NumberToken(digits: string, suffix: string, rest: string)
    requires digits != "" && digits[0] != '0' && forall i | 0 <= i < |digits| :: '0' <= digits[i] <= '9'
    requires forall i | 0 <= i < |suffix| :: suffix[i] in "uUlL"
    requires rest != "" ==> rest[0] !in "uUlL" && (suffix == "" ==> !('0' <= rest[0] <= '9'))
    ensures Scan(NormalMode, digits + suffix + rest) == (NormalMode, [Token(TtConstant, digits + suffix)])
  {
    hide Scan;
    var code := digits + suffix + rest;
    var d, e := |digits|, |digits| + |suffix|;
    assert forall k | 0 <= k < d :: code[k] == digits[k];
    assert forall k | d <= k < e :: code[k] == suffix[k - d];
    assert e < |code| ==> code[e] == rest[0];
    assert code[..e] == digits + suffix;
    SpanExactly(code, 0, d, IsDigit);
    SpanExactly(code, d, e, IsSuffix);
    DigitStart(code);
    DigitIsConstant(code);
  }

  /** A run of blanks is one token. */
  lemma BlankToken(blanks: string, rest: string)
    requires blanks != "" && forall i | 0 <= i < |blanks| :: blanks[i] in " \t\r\n"
    requires rest != "" ==> rest[0] !in " \t\r\n"
    ensures Scan(NormalMode, blanks + rest) == (NormalMode, [Token(TtWhitespace, blanks)])
  {
    hide FindPrefix, KeywordRegex;
    var code := blanks + rest;
    assert code[0] == blanks[0] && code[..|blanks|] == blanks;
    SpanExactly(code, 0, |blanks|, IsSpace);
    NoListed(code);
  }

  /** Code that begins with a character of no listed word. */
  lemma NoListed(code: string)
    requires code != "" && code[0] in " \t\r\n\"#"
    ensures !KeywordRegex(code)
    ensures FindPrefix(code, C_OPERATORS).None? && FindPrefix(code, C_SPECIAL_SYMBOLS).None?
  {
    hide FindPrefix, C_OPERATORS, C_SPECIAL_SYMBOLS, C_KEYWORDS;
    KeywordStarts();
    OtherStarts();
    assert forall k | k in C_KEYWORDS :: k[0] != code[0];
    NotListed(code, C_OPERATORS);
    NotListed(code, C_SPECIAL_SYMBOLS);
  }

  lemma OtherStarts()
    ensures forall p | p in C_OPERATORS :: p != "" && p[0] !in " \t\r\n\"#"
    ensures forall p | p in C_SPECIAL_SYMBOLS :: p != "" && p[0] !in " \t\r\n\"#"
  {
  }

  /** Quoted text up to the first quote, without backslashes. */
  lemma {:induction false} QuotedExactly(s: string, i: nat, end: nat, closing: char -> bool)
    requires i <= end < |s| && closing(s[end])
    requires forall k | i <= k < end :: !closing(s[k]) && s[k] != '\\'
    ensures QuotedEnd(s, i, closing) == Some(end + 1)
    decreases end - i
  {
    if i < end {
      QuotedExactly(s, i + 1, end, closing);
    }
  }

  /** A string is one literal. */
  lemma StringToken(text: string, rest: string)
    requires '"' !in text && '\\' !in text
    ensures Scan(NormalMode, "\"" + text + "\"" + rest) == (NormalMode, [Token(TtLiteral, "\"" + text + "\"")])
  {
    hide FindPrefix, KeywordRegex;
    var code := "\"" + text + "\"" + rest;
    var end := 1 + |text|;
    assert code[0] == '"' && code[end] == '"' && forall k | 1 <= k < end :: code[k] == text[k - 1];
    assert code[..end + 1] == "\"" + text + "\"";
    QuotedExactly(code, 1, end, c => c == '"');
    NoListed(code);
  }

  // ----- includes

  /** A path in quotes or brackets. */
  ghost predicate IsPath(path: string) {
    && |path| >= 2
    && ((path[0] == '"' && path[|path| - 1] == '"') || (path[0] == '<' && path[|path| - 1] == '>'))
    && forall k | 0 < k < |path| - 1 :: path[k] != '"' && path[k] != '>' && path[k] != '\\'
  }

  lemma IncludeMatch(blanks: string, path: string, rest: string)
    requires IsPath(path) && forall i | 0 <= i < |blanks| :: blanks[i] == ' ' || blanks[i] == '\t'
    ensures PreprocRegex("#include" + blanks + path + rest) ==
            Some(Directive(8, 8 + |blanks|, Some(8 + |blanks| + |path|)))
  {
    var code := "#include" + blanks + path + rest;
    var b, end := 8 + |blanks|, 8 + |blanks| + |path|;
    assert code[..8] == "#include" && code[0] == '#' && code[1] == 'i';
    assert forall k | 0 <= k < 8 :: code[k] == "#include"[k];
    assert forall k | 8 <= k < b :: code[k] == blanks[k - 8];
    assert forall k | b <= k < end :: code[k] == path[k - b];
    SpanExactly(code, 1, 8, c => 'a' <= c <= 'z' || c == '_');
    SpanExactly(code, 8, b, c => c == ' ' || c == '\t');
    QuotedExactly(code, b + 1, end - 1, c => c == '>' || c == '"');
  }

  /** An include is three tokens, the last one its path. */
  lemma IncludeTokens(blanks: string, path: string, rest: string)
    requires IsPath(path) && forall i | 0 <= i < |blanks| :: blanks[i] == ' ' || blanks[i] == '\t'
    ensures Scan(NormalMode, "#include" + blanks + path + rest) ==
            (NormalMode,
             [Token(TtPreproc, "#include"), Token(TtWhitespace, blanks), Token(TtIncludeFilepath, path)])
  {
    hide FindPrefix, KeywordRegex, PreprocRegex, C_OPERATORS, C_SPECIAL_SYMBOLS;
    var code := "#include" + blanks + path + rest;
    var b, end := 8 + |blanks|, 8 + |blanks| + |path|;
    assert code[0] == '#';
    assert code[..8] == "#include" && code[8..b] == blanks && code[b..end] == path;
    NoListed(code);
    IncludeMatch(blanks, path, rest);
    SpanExactly(code, 0, 0, IsSpace);
    SpanExactly(code, 0, 0, IsDigit);
    SpanExactly(code, 0, 0, IsSuffix);
  }
}
