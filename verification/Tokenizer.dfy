/** The modal tokenizer for C source lines. */
module Tokenizer {
  import opened Words
  import opened CSyntax

  datatype Mode = NormalMode | CommentMode | LineCommentMode

  type Tokens = seq<Token>

  function Texts(tokens: Tokens): string {
    if tokens == [] then "" else tokens[0].text + Texts(tokens[1..])
  }

  lemma {:induction false} TextsAppend(t1: Tokens, t2: Tokens)
    ensures Texts(t1 + t2) == Texts(t1) + Texts(t2)
  {
    if t1 == [] {
      assert t1 + t2 == t2;
    } else {
      assert (t1 + t2)[1..] == t1[1..] + t2;
      TextsAppend(t1[1..], t2);
    }
  }

  // ----- scanning

  function One(code: string, end: nat, tag: Tag): Tokens
    requires end <= |code|
  {
    [Token(tag, code[..end])]
  }

  function ConstantRegex(code: string): (r: Match)
    ensures MatchIn(r, code)
  {
    if HexConstantRegex(code).Some? then HexConstantRegex(code)
    else if OctalConstantRegex(code).Some? then OctalConstantRegex(code)
    else if DecimalConstantRegex(code).Some? then DecimalConstantRegex(code)
    else if CharConstantRegex(code).Some? then CharConstantRegex(code)
    else if SciConstantRegex(code).Some? then SciConstantRegex(code)
    else if FloatFracRegex(code).Some? then FloatFracRegex(code)
    else FloatWholeRegex(code)
  }

  /** scan-preproc: an include with its path is three tokens, the blanks between possibly empty. */
  function ScanPreproc(code: string): Tokens
    requires PreprocRegex(code).Some?
  {
    var m := PreprocRegex(code).value;
    var directive := Token(TtPreproc, code[..m.directiveEnd]);
    if directive.text == "#include" && m.pathEnd.Some? then
      [directive,
       Token(TtWhitespace, code[m.directiveEnd..m.blankEnd]),
       Token(TtIncludeFilepath, code[m.blankEnd..m.pathEnd.value])]
    else [directive]
  }

  function ScanIdentifier(code: string, end: nat): Tokens
    requires end <= |code|
  {
    One(code, end, if code[..end] in C_BUILTIN_TYPES then TtType else TtIdentifier)
  }

  /** scan-normal-mode; its final error branch is unreachable for non-empty code. */
  function ScanNormal(code: string): Tokens
    requires code != ""
  {
    if C_UNCOMMENT <= code then One(code, 2, TtTrailingUncomment)
    else if KeywordRegex(code) then
      KeywordFound(code);
      One(code, |FindPrefix(code, C_KEYWORDS).value|, TtKeyword)
    else if FindPrefix(code, C_OPERATORS).Some? then One(code, |FindPrefix(code, C_OPERATORS).value|, TtOperator)
    else if FindPrefix(code, C_SPECIAL_SYMBOLS).Some? then
      One(code, |FindPrefix(code, C_SPECIAL_SYMBOLS).value|, TtSpecialSymbol)
    else if LiteralRegex(code).Some? then One(code, LiteralRegex(code).value, TtLiteral)
    else if WhitespaceRegex(code).Some? then One(code, WhitespaceRegex(code).value, TtWhitespace)
    else if IdentifierRegex(code).Some? then ScanIdentifier(code, IdentifierRegex(code).value)
    else if ConstantRegex(code).Some? then One(code, ConstantRegex(code).value, TtConstant)
    else if PreprocRegex(code).Some? then ScanPreproc(code)
    else
      AnyMatches(code);
      One(code, AnyRegex(code).value, TtOther)
  }

  /** What is not whitespace is matched by the regular expression of last resort. */
  lemma AnyMatches(code: string)
    requires code != "" && WhitespaceRegex(code).None?
    ensures AnyRegex(code).Some?
  {
  }

  lemma KeywordFound(code: string)
    requires KeywordRegex(code)
    ensures FindPrefix(code, C_KEYWORDS).Some?
  {
  }

  /** One call of scan on non-empty code: the new mode and the tokens found. */
  function Scan(mode: Mode, code: string): (Mode, Tokens)
    requires code != ""
  {
    match mode
    case NormalMode =>
      if C_COMMENT <= code then (CommentMode, One(code, 2, TtComment))
      else if CXX_COMMENT <= code then (LineCommentMode, One(code, 2, TtComment))
      else (NormalMode, ScanNormal(code))
    case CommentMode =>
      if C_UNCOMMENT <= code then (NormalMode, One(code, 2, TtUncomment))
      else (CommentMode, One(code, CommentTextEnd(code, 0), TtCommentText))
    case LineCommentMode =>
      (LineCommentMode, One(code, LineCommentTextEnd(code), TtCommentText))
  }

  /** A new line implicitly ends a line comment. */
  function AtNewLine(mode: Mode): Mode {
    if mode == LineCommentMode then NormalMode else mode
  }

  /**
   * A scan cuts its tokens off the front of the code, and makes progress on all code but
   * a newline inside a line comment.
   */
  lemma ScanCutsPrefix(mode: Mode, code: string)
    requires code != ""
    ensures var tokens := Scan(mode, code).1;
            && tokens != []
            && Texts(tokens) <= code
            && (tokens[0].text != "" <==> !(mode == LineCommentMode && code[0] == '\n'))
  {
    match mode {
      case NormalMode =>
        if C_COMMENT <= code || CXX_COMMENT <= code {
          OneCutsPrefix(code, 2, TtComment);
        } else {
          ScanNormalCutsPrefix(code);
        }
      case CommentMode =>
        OneCutsPrefix(code, 2, TtUncomment);
        OneCutsPrefix(code, CommentTextEnd(code, 0), TtCommentText);
      case LineCommentMode =>
        OneCutsPrefix(code, LineCommentTextEnd(code), TtCommentText);
    }
  }

  lemma OneCutsPrefix(code: string, end: nat, tag: Tag)
    ensures end <= |code| ==>
              var tokens := One(code, end, tag);
              && Texts(tokens) == code[..end] && (tokens[0].text != "" <==> end > 0)
  {
  }

  lemma ScanPreprocCutsPrefix(code: string)
    requires PreprocRegex(code).Some?
    ensures var tokens := ScanPreproc(code);
            tokens != [] && Texts(tokens) <= code && tokens[0].text != ""
  {
    var tokens := ScanPreproc(code);
    var m := PreprocRegex(code).value;
    if |tokens| == 1 {
      assert Texts(tokens) == tokens[0].text + Texts(tokens[1..]) == tokens[0].text;
    } else {
      assert tokens[1..] == [tokens[1], tokens[2]] && tokens[1..][1..] == [tokens[2]];
      assert Texts([tokens[2]]) == tokens[2].text + Texts([]);
      assert Texts(tokens[1..]) == tokens[1].text + Texts([tokens[2]]);
      assert Texts(tokens) ==
             code[..m.directiveEnd] + (code[m.directiveEnd..m.blankEnd] + (code[m.blankEnd..m.pathEnd.value] + ""));
      assert Texts(tokens) == code[..m.pathEnd.value];
    }
  }

  lemma ScanNormalCutsPrefix(code: string)
    requires code != ""
    ensures var tokens := ScanNormal(code);
            tokens != [] && Texts(tokens) <= code && tokens[0].text != ""
  {
    hide FindPrefix, KeywordRegex, Texts, ScanPreproc, PreprocRegex, LiteralRegex, WhitespaceRegex, IdentifierRegex,
        ConstantRegex;
    NonEmptyPrefixes(code);
    forall end: nat, tag | 0 < end <= |code|
      ensures Texts(One(code, end, tag)) <= code && One(code, end, tag)[0].text != ""
    {
      OneCutsPrefix(code, end, tag);
    }
    if C_UNCOMMENT <= code {
    } else if KeywordRegex(code) {
      KeywordFound(code);
    } else if FindPrefix(code, C_OPERATORS).Some? {
    } else if FindPrefix(code, C_SPECIAL_SYMBOLS).Some? {
    } else if LiteralRegex(code).Some? {
    } else if WhitespaceRegex(code).Some? {
    } else if IdentifierRegex(code).Some? {
    } else if ConstantRegex(code).Some? {
    } else if PreprocRegex(code).Some? {
      ScanPreprocCutsPrefix(code);
    } else {
      AnyMatches(code);
    }
  }

  lemma NonEmptyPrefixes(code: string)
    ensures FindPrefix(code, C_KEYWORDS).Some? ==> FindPrefix(code, C_KEYWORDS).value != ""
    ensures FindPrefix(code, C_OPERATORS).Some? ==> FindPrefix(code, C_OPERATORS).value != ""
    ensures FindPrefix(code, C_SPECIAL_SYMBOLS).Some? ==> FindPrefix(code, C_SPECIAL_SYMBOLS).value != ""
  {
    hide FindPrefix;
    assert forall p | p in C_KEYWORDS :: p != "";
    assert forall p | p in C_OPERATORS :: p != "";
    assert forall p | p in C_SPECIAL_SYMBOLS :: p != "";
  }

  /** No line contains a newline: the source file is split at newlines. */
  predicate IsLine(s: string) {
    '\n' !in s
  }

  // ----- one line without a token queue

  function LexLine(mode: Mode, code: string): (Mode, Tokens)
    requires IsLine(code)
    decreases |code|
  {
    if code == "" then (mode, [])
    else
      ScanCutsPrefix(mode, code);
      var (mode', tokens) := Scan(mode, code);
      var (mode'', more) := LexLine(mode', code[|Texts(tokens)|..]);
      (mode'', tokens + more)
  }

  /** Tokenizing a line loses nothing. */
  lemma {:induction false} LexLineLossless(mode: Mode, code: string)
    requires IsLine(code)
    ensures Texts(LexLine(mode, code).1) == code
    decreases |code|
  {
    hide Scan;
    if code != "" {
      ScanCutsPrefix(mode, code);
      var (mode', tokens) := Scan(mode, code);
      var rest := code[|Texts(tokens)|..];
      LexLineLossless(mode', rest);
      TextsAppend(tokens, LexLine(mode', rest).1);
    }
  }

  /** One scan of a single token. */
  lemma LexLineStep(mode: Mode, code: string, token: Token)
    requires IsLine(code) && code != "" && Scan(mode, code).1 == [token]
    ensures token.text <= code
    ensures var rest := code[|token.text|..];
            LexLine(mode, code) == (LexLine(Scan(mode, code).0, rest).0, [token] + LexLine(Scan(mode, code).0, rest).1)
  {
    ScanCutsPrefix(mode, code);
    assert Texts([token]) == token.text + Texts([token][1..]) == token.text;
  }

  // ----- floating-point and scientific constants

  /** The end of a floating-point or scientific constant. */
  function FloatRegex(code: string): (r: Match)
    ensures MatchIn(r, code)
  {
    if SciConstantRegex(code).Some? then SciConstantRegex(code)
    else if FloatFracRegex(code).Some? then FloatFracRegex(code)
    else FloatWholeRegex(code)
  }

  // How the listed words begin.

  lemma KeywordStarts()
    ensures forall p | p in C_KEYWORDS :: p != "" && IsLetter(p[0])
  {
  }

  lemma OperatorStarts()
    ensures forall p | p in C_OPERATORS :: p != "" && !IsDigit(p[0]) && (p[0] == '.' ==> p == ".")
    ensures "." in C_OPERATORS
  {
    assert C_OPERATORS[22] == ".";
  }

  lemma SymbolStarts()
    ensures forall p | p in C_SPECIAL_SYMBOLS :: p != "" && !IsDigit(p[0])
  {
  }

  lemma NotListed(code: string, prefixes: seq<string>)
    requires code != "" && forall p | p in prefixes :: p != "" && p[0] != code[0]
    ensures FindPrefix(code, prefixes).None?
  {
    hide FindPrefix;
  }

  lemma NoWord(code: string)
    requires code != "" && (IsDigit(code[0]) || code[0] == '.')
    ensures !(C_COMMENT <= code) && !(CXX_COMMENT <= code) && !(C_UNCOMMENT <= code)
    ensures !KeywordRegex(code)
  {
    KeywordStarts();
    assert forall k | k in C_KEYWORDS :: k[0] != code[0];
  }

  lemma DigitIsConstant(code: string)
    requires code != "" && IsDigit(code[0])
    ensures LiteralRegex(code).None? && WhitespaceRegex(code).None? && IdentifierRegex(code).None?
    ensures ConstantRegex(code).Some?
    ensures ConstantRegex(code) == (if HexConstantRegex(code).Some? then HexConstantRegex(code)
                                    else if OctalConstantRegex(code).Some? then OctalConstantRegex(code)
                                    else DecimalConstantRegex(code))
  {
    assert Span(code, 0, IsSpace) == 0;
  }

  /** What begins with a digit is left to the regular expressions for constants. */
  lemma DigitStart(code: string)
    requires code != "" && IsDigit(code[0])
    ensures ConstantRegex(code).Some? &&
        Scan(NormalMode, code) == (NormalMode, One(code, ConstantRegex(code).value, TtConstant))
  {
    hide FindPrefix, ConstantRegex, KeywordRegex, LiteralRegex, WhitespaceRegex, IdentifierRegex;
    OperatorStarts();
    SymbolStarts();
    NotListed(code, C_OPERATORS);
    NotListed(code, C_SPECIAL_SYMBOLS);
    NoWord(code);
    DigitIsConstant(code);
  }

  lemma PointStart(code: string)
    requires code != "" && code[0] == '.'
    ensures Scan(NormalMode, code) == (NormalMode, One(code, 1, TtOperator))
  {
    hide FindPrefix, KeywordRegex;
    OperatorStarts();
    NoWord(code);
    assert "." <= code;
  }

  /** A constant that is not an integer goes on behind its leading digits. */
  lemma FloatGoesOn(code: string)
    requires FloatRegex(code).Some? && IsDigit(code[0])
    ensures var d := Span(code, 0, IsDigit);
            && d < FloatRegex(code).value
            && (code[d] == '.' || ((code[d] == 'e' || code[d] == 'E') && code[0] != '0'))
  {
    assert Span(code, 1, IsDigit) == Span(code, 0, IsDigit);
  }

  lemma IntegerStops(code: string)
    requires code != "" && IsDigit(code[0])
    requires var d := Span(code, 0, IsDigit);
             && d < |code|
             && (code[d] == '.' || ((code[d] == 'e' || code[d] == 'E') && code[0] != '0'))
    ensures ConstantRegex(code).Some? && ConstantRegex(code).value <= Span(code, 0, IsDigit)
  {
    hide ExponentEnd, FloatTail, SciConstantRegex, FloatFracRegex, FloatWholeRegex, CharConstantRegex;
    var d := Span(code, 0, IsDigit);
    assert Span(code, 1, IsDigit) == d;
    assert Span(code, d, IsSuffix) == d;
    if OctalConstantRegex(code).Some? {
      var o := Span(code, 1, IsOctal);
      assert o <= d;
      assert Span(code, o, IsSuffix) == o;
    }
  }

  /** Where scan-constant comes to those regular expressions, none of them matches. */
  lemma FloatBranchesUnreached(code: string)
    requires FindPrefix(code, C_OPERATORS).None?
    requires HexConstantRegex(code).None? && OctalConstantRegex(code).None? && DecimalConstantRegex(code).None?
    ensures SciConstantRegex(code).None? && FloatFracRegex(code).None? && FloatWholeRegex(code).None?
  {
    hide FindPrefix;
    OperatorStarts();
    assert code != "" && code[0] == '.' ==> "." <= code;
  }

  /** A floating-point or scientific constant is never one token: a shorter one is cut off it. */
  lemma FloatIsCut(code: string)
    requires FloatRegex(code).Some?
    ensures exists n: nat, tag | 0 < n < FloatRegex(code).value ::
        Scan(NormalMode, code) == (NormalMode, One(code, n, tag))
  {
    hide Scan, ConstantRegex;
    FloatStarts(code);
    if code[0] == '.' {
      PointStart(code);
      assert Scan(NormalMode, code) == (NormalMode, One(code, 1, TtOperator));
    } else {
      FloatGoesOn(code);
      IntegerStops(code);
      DigitStart(code);
      assert Scan(NormalMode, code) == (NormalMode, One(code, ConstantRegex(code).value, TtConstant));
    }
  }

  lemma FloatStarts(code: string)
    requires FloatRegex(code).Some?
    ensures code != "" && (IsDigit(code[0]) || (code[0] == '.' && FloatRegex(code).value > 1))
  {
  }

  lemma OneDigit(code: string)
    requires code == "1.5" || code == "5"
    ensures Scan(NormalMode, code) == (NormalMode, [Token(TtConstant, code[..1])])
  {
    hide Scan, ScanNormal;
    DigitStart(code);
    DigitIsConstant(code);
    assert Span(code, 1, IsDigit) == 1 && Span(code, 0, IsDigit) == 1 && Span(code, 1, IsSuffix) == 1;
  }

  /** 1.5 is a constant, the operator for member access and another constant. */
  lemma FloatExample()
    ensures FloatRegex("1.5") == Some(3)
    ensures LexLine(NormalMode, "1.5") ==
            (NormalMode, [Token(TtConstant, "1"), Token(TtOperator, "."), Token(TtConstant, "5")])
  {
    hide Scan, FloatRegex, LexLine;
    var one, point, five := Token(TtConstant, "1"), Token(TtOperator, "."), Token(TtConstant, "5");
    FloatMatch();
    assert "1.5"[..1] == "1" && "1.5"[1..] == ".5";
    OneDigit("1.5");
    LexLineStep(NormalMode, "1.5", one);
    assert ".5"[..1] == "." && ".5"[1..] == "5";
    PointStart(".5");
    LexLineStep(NormalMode, ".5", point);
    assert "5"[..1] == "5" && "5"[1..] == "";
    OneDigit("5");
    LexLineStep(NormalMode, "5", five);
    PendingNone(NormalMode, "");
    assert [one] + ([point] + ([five] + [])) == [one, point, five];
  }

  lemma FloatMatch()
    ensures FloatRegex("1.5") == Some(3)
  {
    var s := "1.5";
    assert Span(s, 1, IsDigit) == 1 && Span(s, 0, IsDigit) == 1;
    assert Span(s, 3, IsDigit) == 3 && Span(s, 2, IsDigit) == 3;
  }

  predicate AreLines(lines: seq<string>) {
    forall i | 0 <= i < |lines| :: IsLine(lines[i])
  }

  function LexLines(mode: Mode, lines: seq<string>): (Mode, seq<Tokens>)
    requires AreLines(lines)
    decreases |lines|
  {
    if lines == [] then (mode, [])
    else
      var (mode', tokens) := LexLine(AtNewLine(mode), lines[0]);
      var (mode'', more) := LexLines(mode', lines[1..]);
      (mode'', [tokens] + more)
  }

  lemma {:induction false} LexLinesLossless(mode: Mode, lines: seq<string>)
    requires AreLines(lines)
    ensures var out := LexLines(mode, lines).1;
            |out| == |lines| && forall i | 0 <= i < |lines| :: Texts(out[i]) == lines[i]
    decreases |lines|
  {
    if lines != [] {
      LexLineLossless(AtNewLine(mode), lines[0]);
      LexLinesLossless(LexLine(AtNewLine(mode), lines[0]).0, lines[1..]);
    }
  }

  /** A line comment does not reach into the next line; a block comment does. */
  lemma CommentsAtNewLine(lines: seq<string>)
    requires AreLines(lines) && lines != []
    ensures LexLines(LineCommentMode, lines) == LexLines(NormalMode, lines)
    ensures LexLines(CommentMode, lines).1[0] == LexLine(CommentMode, lines[0]).1
  {
  }

  /** The tokens that are still to come while some are queued. */
  function Pending(mode: Mode, rest: string, queue: Tokens): (Mode, Tokens)
    requires IsLine(rest) && Texts(queue) <= rest
  {
    var (mode', more) := LexLine(mode, rest[|Texts(queue)|..]);
    (mode', queue + more)
  }

  lemma PendingNone(mode: Mode, rest: string)
    requires IsLine(rest)
    ensures Texts([]) <= rest && Pending(mode, rest, []) == LexLine(mode, rest)
    ensures LexLine(mode, "") == (mode, [])
  {
    assert rest[|Texts([])|..] == rest;
    assert [] + LexLine(mode, rest).1 == LexLine(mode, rest).1;
  }

  lemma PendingScan(mode: Mode, rest: string)
    requires IsLine(rest) && rest != ""
    ensures var (mode', tokens) := Scan(mode, rest);
            Texts(tokens) <= rest && Pending(mode, rest, []) == Pending(mode', rest, tokens)
  {
    hide Scan;
    ScanCutsPrefix(mode, rest);
    assert rest[|Texts([])|..] == rest;
    var (mode', tokens) := Scan(mode, rest);
    var more := LexLine(mode', rest[|Texts(tokens)|..]).1;
    assert [] + (tokens + more) == tokens + more;
  }

  lemma PendingNext(mode: Mode, rest: string, queue: Tokens)
    requires IsLine(rest) && queue != [] && Texts(queue) <= rest
    ensures var rest' := rest[|queue[0].text|..];
            && Texts(queue[1..]) <= rest'
            && Pending(mode, rest, queue).0 == Pending(mode, rest', queue[1..]).0
            && Pending(mode, rest, queue).1 == [queue[0]] + Pending(mode, rest', queue[1..]).1
  {
    assert Texts(queue) == queue[0].text + Texts(queue[1..]);
    hide Scan, LexLine, Texts, IsLine;
    PrefixSplit(queue[0].text, Texts(queue[1..]), rest);
    ConsAppend(queue, LexLine(mode, rest[|Texts(queue)|..]).1);
    assert IsLine(rest[|queue[0].text|..]) by { SuffixIsLine(rest, |queue[0].text|); }
  }

  lemma SuffixIsLine(s: string, i: nat)
    requires IsLine(s) && i <= |s|
    ensures IsLine(s[i..])
  {
  }

  lemma PrefixSplit(a: string, b: string, s: string)
    requires a + b <= s
    ensures a <= s && b <= s[|a|..] && s[|a|..][|b|..] == s[|a + b|..]
  {
    assert s[..|a|] == (a + b)[..|a|] == a;
    assert s[|a|..][..|b|] == s[..|a + b|][|a|..] == (a + b)[|a|..] == b;
  }

  lemma ConsAppend<T>(s: seq<T>, t: seq<T>)
    requires s != []
    ensures s + t == [s[0]] + (s[1..] + t)
  {
  }

  lemma PopFirst<T>(s: seq<T>, x: T, t: seq<T>)
    ensures ([x] + t)[0] == x && ([x] + t)[1..] == t
    ensures s != [] && x == s[0] && t == s[1..] ==> [x] + t == s
  {
  }

  lemma AppendCons<T>(s: seq<T>, x: T, t: seq<T>)
    ensures s + ([x] + t) == (s + [x]) + t
  {
  }

  // ----- the tokenizer itself, with its hidden mode and token queue

  class Scanner {
    var mode: Mode
    var tokenQueue: Tokens

    constructor ()
      ensures mode == NormalMode && tokenQueue == []
    {
      mode, tokenQueue := NormalMode, [];
    }

    /** scan */
    method ScanCode(code: string, newLine: bool) returns (tokens: Tokens)
      modifies this`mode
      ensures var mode0 := if newLine then AtNewLine(old(mode)) else old(mode);
              (mode, tokens) == if code == "" then (mode0, []) else Scan(mode0, code)
    {
      if mode == LineCommentMode && newLine {
        mode := NormalMode;
      }
      if code == "" {
        return [];
      }
      match mode {
        case NormalMode =>
          if C_COMMENT <= code {
            mode := CommentMode;
            tokens := One(code, 2, TtComment);
          } else if CXX_COMMENT <= code {
            mode := LineCommentMode;
            tokens := One(code, 2, TtComment);
          } else {
            tokens := ScanNormal(code);
          }
        case CommentMode =>
          if C_UNCOMMENT <= code {
            mode := NormalMode;
            tokens := One(code, 2, TtUncomment);
          } else {
            tokens := One(code, CommentTextEnd(code, 0), TtCommentText);
          }
        case LineCommentMode =>
          tokens := One(code, LineCommentTextEnd(code), TtCommentText);
      }
    }

    /** next-token: None at the end of the code. */
    method NextToken(code: string, newLine: bool) returns (token: Option<Token>)
      modifies this
      ensures old(tokenQueue) != [] ==>
                mode == old(mode) && token == Some(old(tokenQueue)[0]) && tokenQueue == old(tokenQueue)[1..]
      ensures old(tokenQueue) == [] ==>
                var mode0 := if newLine then AtNewLine(old(mode)) else old(mode);
                if code == "" then token == None && mode == mode0 && tokenQueue == []
                else token.Some? && (mode, [token.value] + tokenQueue) == Scan(mode0, code)
    {
      hide Scan, Texts;
      if tokenQueue == [] {
        if code != "" {
          ScanCutsPrefix(if newLine then AtNewLine(mode) else mode, code);
        }
        var newTokens := ScanCode(code, newLine);
        if newTokens == [] {
          return None;
        }
        tokenQueue := newTokens[1..];
        assert [newTokens[0]] + newTokens[1..] == newTokens;
        return Some(newTokens[0]);
      }
      token, tokenQueue := Some(tokenQueue[0]), tokenQueue[1..];
    }

    /**
     * tokenize-code: draining the queue token by token gives the same tokens as taking
     * them all at once, and leaves the queue empty for the next line.
     */
    method TokenizeCode(code: string) returns (tokens: Tokens)
      requires IsLine(code) && tokenQueue == []
      modifies this
      ensures tokenQueue == [] && (mode, tokens) == LexLine(AtNewLine(old(mode)), code)
    {
      ghost var goal := LexLine(AtNewLine(mode), code);
      var rest, newLine := code, true;
      tokens := [];
      PendingNone(AtNewLine(mode), code);
      while true
        invariant newLine ==> tokenQueue == []
        invariant IsLine(rest) && Texts(tokenQueue) <= rest
        invariant var (m, pending) := Pending(if newLine then AtNewLine(mode) else mode, rest, tokenQueue);
                  goal.0 == m && goal.1 == tokens + pending
        decreases |rest|, |tokenQueue|
      {
        ghost var queue0, mode0 := tokenQueue, if newLine then AtNewLine(mode) else mode;
        PendingNone(mode0, rest);
        if queue0 == [] && rest != "" {
          PendingScan(mode0, rest);
          ScanCutsPrefix(mode0, rest);
        }
        var token := NextToken(rest, newLine);
        if token.None? {
          assert tokens + [] == tokens;
          return;
        }
        ghost var queue1 := [token.value] + tokenQueue;
        PopFirst(queue0, token.value, tokenQueue);
        PendingNext(mode, rest, queue1);
        AppendCons(tokens, token.value, Pending(mode, rest[|token.value.text|..], tokenQueue).1);
        rest, newLine := rest[|token.value.text|..], false;
        tokens := tokens + [token.value];
      }
    }

    /** The mapping of tokenize-code over all lines. */
    method TokenizeLines(lines: seq<string>) returns (out: seq<Tokens>)
      requires AreLines(lines) && tokenQueue == []
      modifies this
      ensures tokenQueue == [] && (mode, out) == LexLines(old(mode), lines)
    {
      out := [];
      assert lines[0..] == lines;
      assert forall more: seq<Tokens> :: [] + more == more;
      for i := 0 to |lines|
        invariant tokenQueue == []
        invariant var (m, more) := LexLines(mode, lines[i..]);
                  LexLines(old(mode), lines) == (m, out + more)
      {
        assert lines[i..][0] == lines[i] && lines[i..][1..] == lines[i + 1..];
        var tokens := TokenizeCode(lines[i]);
        assert forall more: seq<Tokens> :: out + ([tokens] + more) == (out + [tokens]) + more;
        out := out + [tokens];
      }
      assert lines[|lines|..] == [] && out + [] == out;
    }
  }
}
