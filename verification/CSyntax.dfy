/** C tokens, and the regular expressions that recognise them as functions on strings. */
module CSyntax {
  import opened Words

  datatype Tag =
    | TtOther | TtKeyword | TtOperator | TtSpecialSymbol | TtConstant | TtLiteral | TtIdentifier | TtType
    | TtPreproc | TtIncludeFilepath | TtComment | TtUncomment | TtTrailingUncomment | TtCommentText | TtWhitespace

  datatype Token = Token(tag: Tag, text: string)

  const C_KEYWORDS: seq<string> :=
    ["case", "default", "if", "else", "switch", "while", "do", "for", "goto", "continue", "break", "return",
     "struct", "union", "enum", "typedef", "extern", "static", "register", "auto", "const", "volatile", "restrict"]

  const C_OPERATORS: seq<string> :=
    [">>=", "<<=", "+=", "-=", "*=", "/=", "%=", "&=", "^=", "|=", ">>", "<<", "++", "--", "->", "&&", "||",
     "<=", ">=", "==", "!=", "=", ".", "&", "!", "~", "-", "+", "*", "/", "%", "<", ">", "^", "|", "?", ":", "sizeof"]

  const C_BUILTIN_TYPES: seq<string> :=
    ["char", "short", "int", "long", "signed", "unsigned", "float", "double", "void"]

  const C_SPECIAL_SYMBOLS: seq<string> := ["(", ")", "[", "]", "{", "}", ",", ";", "..."]

  const C_COMMENT := "/*"
  const C_UNCOMMENT := "*/"
  const CXX_COMMENT := "//"

  /** find-prefix: the first of the given strings that the code starts with. */
  function FindPrefix(code: string, prefixes: seq<string>): (r: Option<string>)
    ensures r.Some? ==> r.value in prefixes && r.value <= code
    ensures r.None? ==> forall p | p in prefixes :: !(p <= code)
  {
    if prefixes == [] then None
    else if prefixes[0] <= code then Some(prefixes[0])
    else
      assert prefixes == [prefixes[0]] + prefixes[1..];
      FindPrefix(code, prefixes[1..])
  }

  // ----- pieces of regular expressions

  /** The end of the longest run of characters from i on that are all in a class. */
  function Span(s: string, i: nat, class_: char -> bool): (r: nat)
    requires i <= |s|
    ensures i <= r <= |s| && (forall k | i <= k < r :: class_(s[k]))
    ensures r < |s| ==> !class_(s[r])
    decreases |s| - i
  {
    if i < |s| && class_(s[i]) then Span(s, i + 1, class_) else i
  }

  predicate IsSpace(c: char) { c == '\t' || c == '\r' || c == '\n' || c == ' ' }
  predicate IsDigit(c: char) { '0' <= c <= '9' }
  predicate IsOctal(c: char) { '0' <= c <= '7' }
  predicate IsHex(c: char) { IsDigit(c) || 'a' <= c <= 'f' || 'A' <= c <= 'F' }
  predicate IsLetter(c: char) { 'a' <= c <= 'z' || 'A' <= c <= 'Z' || c == '_' }
  predicate IsSuffix(c: char) { c == 'u' || c == 'U' || c == 'l' || c == 'L' }

  predicate At(s: string, i: nat, class_: char -> bool) {
    i < |s| && class_(s[i])
  }

  /** Behind the closing delimiter of a quoted text, where a backslash hides the next character. */
  function QuotedEnd(s: string, i: nat, closing: char -> bool): (r: Option<nat>)
    requires i <= |s|
    ensures r.Some? ==> i < r.value <= |s|
    decreases |s| - i
  {
    if i == |s| then None
    else if closing(s[i]) then Some(i + 1)
    else if s[i] != '\\' then QuotedEnd(s, i + 1, closing)
    else if i + 1 < |s| then QuotedEnd(s, i + 2, closing)
    else None
  }

  /** `[Ee][+-]?[0-9]+` */
  function ExponentEnd(s: string, i: nat): (r: Option<nat>)
    requires i <= |s|
    ensures r.Some? ==> i < r.value <= |s|
  {
    if !At(s, i, c => c == 'e' || c == 'E') then None
    else
      var j := if At(s, i + 1, c => c == '+' || c == '-') then i + 2 else i + 1;
      var k := Span(s, j, IsDigit);
      if k > j then Some(k) else None
  }

  // ----- the regular expressions: the end of the match, if there is a non-empty one

  type Match = Option<nat>

  predicate MatchIn(r: Match, s: string) {
    r.Some? ==> 0 < r.value <= |s|
  }

  function NonEmpty(n: nat): Match {
    if n > 0 then Some(n) else None
  }

  predicate KeywordRegex(s: string) {
    exists k | k in C_KEYWORDS :: k <= s && At(s, |k|, c => c == '\n' || c == '\t' || c == ' ')
  }

  function LiteralRegex(s: string): (r: Match)
    ensures MatchIn(r, s)
  {
    if At(s, 0, c => c == '"') then QuotedEnd(s, 1, c => c == '"') else None
  }

  function WhitespaceRegex(s: string): (r: Match)
    ensures MatchIn(r, s)
  {
    NonEmpty(Span(s, 0, IsSpace))
  }

  function IdentifierRegex(s: string): (r: Match)
    ensures MatchIn(r, s)
  {
    if At(s, 0, IsLetter) then Some(Span(s, 1, c => IsLetter(c) || IsDigit(c))) else None
  }

  function HexConstantRegex(s: string): (r: Match)
    ensures MatchIn(r, s)
  {
    if At(s, 0, c => c == '0') && At(s, 1, c => c == 'x' || c == 'X') && At(s, 2, IsHex)
    then Some(Span(s, Span(s, 2, IsHex), IsSuffix)) else None
  }

  function OctalConstantRegex(s: string): (r: Match)
    ensures MatchIn(r, s)
  {
    if At(s, 0, c => c == '0') && At(s, 1, IsOctal) then Some(Span(s, Span(s, 1, IsOctal), IsSuffix)) else None
  }

  function DecimalConstantRegex(s: string): (r: Match)
    ensures MatchIn(r, s)
  {
    if At(s, 0, IsDigit) then Some(Span(s, Span(s, 0, IsDigit), IsSuffix)) else None
  }

  /** The items of a character constant: `\` with any character but a newline, or one character. */
  function CharItemsEnd(s: string, i: nat): (r: Option<nat>)
    requires i <= |s|
    ensures r.Some? ==> i < r.value <= |s|
    decreases |s| - i
  {
    if i == |s| then None
    else if s[i] == '\'' then Some(i + 1)
    else if s[i] != '\\' then CharItemsEnd(s, i + 1)
    else if At(s, i + 1, c => c != '\n') then CharItemsEnd(s, i + 2)
    else None
  }

  function CharConstantRegex(s: string): (r: Match)
    ensures MatchIn(r, s)
  {
    var i := Span(s, 0, IsSuffix);
    if At(s, i, c => c == '\'') && At(s, i + 1, c => c != '\'') then CharItemsEnd(s, i + 1) else None
  }

  function SciConstantRegex(s: string): (r: Match)
    ensures MatchIn(r, s)
  {
    if At(s, 0, c => '1' <= c <= '9') then ExponentEnd(s, Span(s, 1, IsDigit)) else None
  }

  /** `([Ee][+-]?[0-9]+)?(f|F|l|L)?` */
  function FloatTail(s: string, i: nat): (r: nat)
    requires i <= |s|
    ensures i <= r <= |s|
  {
    var j := match ExponentEnd(s, i) case Some(e) => e case None => i;
    if At(s, j, c => c == 'f' || c == 'F' || c == 'l' || c == 'L') then j + 1 else j
  }

  function FloatFracRegex(s: string): (r: Match)
    ensures MatchIn(r, s)
  {
    var i := Span(s, 0, IsDigit);
    if At(s, i, c => c == '.') && At(s, i + 1, IsDigit) then Some(FloatTail(s, Span(s, i + 1, IsDigit))) else None
  }

  function FloatWholeRegex(s: string): (r: Match)
    ensures MatchIn(r, s)
  {
    var i := Span(s, 0, IsDigit);
    if i > 0 && At(s, i, c => c == '.') then Some(FloatTail(s, Span(s, i + 1, IsDigit))) else None
  }

  /** A directive, the blanks behind it, and the quoted or bracketed path behind those, if any. */
  datatype Directive = Directive(directiveEnd: nat, blankEnd: nat, pathEnd: Option<nat>)

  function PreprocRegex(s: string): (r: Option<Directive>)
    ensures r.Some? ==>
              && 0 < r.value.directiveEnd <= r.value.blankEnd <= |s|
              && (r.value.pathEnd.Some? ==> r.value.blankEnd < r.value.pathEnd.value <= |s|)
  {
    if At(s, 0, c => c == '#') && At(s, 1, c => 'a' <= c <= 'z' || c == '_') then
      var d := Span(s, 1, c => 'a' <= c <= 'z' || c == '_');
      var b := Span(s, d, c => c == ' ' || c == '\t');
      var quoted := At(s, b, c => c == '<' || c == '"');
      Some(Directive(d, b, if quoted then QuotedEnd(s, b + 1, c => c == '>' || c == '"') else None))
    else None
  }

  function AnyRegex(s: string): (r: Match)
    ensures MatchIn(r, s)
  {
    NonEmpty(Span(s, 0, c => !IsSpace(c)))
  }

  /** The end of the text of a block comment: in front of the next uncomment, or at the end. */
  function CommentTextEnd(s: string, i: nat): (r: nat)
    requires i <= |s|
    ensures i <= r <= |s|
    ensures r < |s| ==> C_UNCOMMENT <= s[r..]
    ensures forall k | i <= k < r :: !(C_UNCOMMENT <= s[k..])
    decreases |s| - i
  {
    if i == |s| || C_UNCOMMENT <= s[i..] then i else CommentTextEnd(s, i + 1)
  }

  function LineCommentTextEnd(s: string): (r: nat)
    ensures r <= |s|
  {
    Span(s, 0, c => c != '\n')
  }
}
