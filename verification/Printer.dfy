/** Printing a window of source lines. */
module Printer {
  import opened Words
  import opened CSyntax
  import opened Tokenizer
  import opened Comments
  import opened Format

  /** Names of user-defined types. */
  type TypesEnv = seq<string>

  // ----- color-tokens

  const ESC: char := '\U{1b}'

  function DefColor(color: string): string {
    [ESC] + "[" + color + "m"
  }

  function PickBeforeColor(token: Token, env: TypesEnv): string {
    match token.tag
    case TtKeyword => DefColor("35")
    case TtPreproc => DefColor("35")
    case TtOperator => DefColor("33")
    case TtType => DefColor("32")
    case TtLiteral => DefColor("31")
    case TtConstant => DefColor("34")
    case TtIdentifier => if token.text in env then DefColor("32") else ""
    case TtComment => DefColor("96")
    case TtCommentText => DefColor("96")
    case TtUncomment => DefColor("96")
    case TtTrailingUncomment => DefColor("96")
    case _ => ""
  }

  function FormatToken(token: Token, env: TypesEnv, useColor: bool): string {
    if useColor then PickBeforeColor(token, env) + token.text + DefColor("0") else "" + token.text + ""
  }

  function FormatTokens(tokens: Tokens, env: TypesEnv, useColor: bool): string {
    if tokens == [] then "" else FormatToken(tokens[0], env, useColor) + FormatTokens(tokens[1..], env, useColor)
  }

  predicate VisibleText(s: string) {
    exists i | 0 <= i < |s| :: !IsBlank(s[i])
  }

  /** visible-content? */
  predicate VisibleContent(tokens: Tokens) {
    exists i | 0 <= i < |tokens| :: VisibleText(tokens[i].text)
  }

  function Label(lineno: nat): string {
    " " + Pad(Numeral(lineno, 10), 4, ' ')
  }

  function Marker(visible: bool, lineno: nat, active: nat): (r: string)
    ensures forall i | 0 <= i < |r| :: r[i] == ' ' || r[i] == '-' || r[i] == '>'
  {
    if lineno == active then " -> " else if visible then "    " else ""
  }

  function ColorTokens(lines: seq<Tokens>, env: TypesEnv, lineno: nat, active: nat, useColor: bool): string {
    if lines == [] then ""
    else Label(lineno) + Marker(VisibleContent(lines[0]), lineno, active) + FormatTokens(lines[0], env, useColor) + "\n"
         + ColorTokens(lines[1..], env, lineno + 1, active, useColor)
  }

  /** With colour, an identifier looks like a built-in type exactly when it names a user's type. */
  lemma TypesLookAlike(name: string, env: TypesEnv)
    ensures FormatToken(Token(TtIdentifier, name), env, true) == FormatToken(Token(TtType, name), env, true) <==>
            name in env
  {
    assert |DefColor("32")| > 0;
  }

  function Paint(tag: Tag, text: string, env: TypesEnv): string {
    FormatToken(Token(tag, text), env, true)
  }

  function In(color: string, text: string): string {
    [ESC] + "[" + color + "m" + text + [ESC] + "[0m"
  }

  lemma InExactly(color: string, text: string)
    ensures DefColor(color) + text + DefColor("0") == In(color, text)
  {
  }

  /** The colours of tokens. */
  lemma ColorTable(text: string, env: TypesEnv)
    ensures Paint(TtKeyword, text, env) == Paint(TtPreproc, text, env) == In("35", text)
    ensures Paint(TtOperator, text, env) == In("33", text) && Paint(TtType, text, env) == In("32", text)
    ensures Paint(TtLiteral, text, env) == In("31", text) && Paint(TtConstant, text, env) == In("34", text)
    ensures Paint(TtComment, text, env) == Paint(TtCommentText, text, env) == In("96", text)
    ensures Paint(TtUncomment, text, env) == Paint(TtTrailingUncomment, text, env) == In("96", text)
    ensures Paint(TtWhitespace, text, env) == Paint(TtSpecialSymbol, text, env) == text + DefColor("0")
    ensures Paint(TtIncludeFilepath, text, env) == Paint(TtOther, text, env) == text + DefColor("0")
  {
    hide DefColor, In;
    forall color
      ensures DefColor(color) + text + DefColor("0") == In(color, text)
    {
      InExactly(color, text);
    }
    assert "" + text + DefColor("0") == text + DefColor("0");
  }

  // ----- line-window

  /** sat-sublist, on a list with at least one element. */
  function SatSublist<T>(lst: seq<T>, start: int, end: int): (r: seq<T>)
    requires lst != []
  {
    var s := if start < 0 then 0 else if start < |lst| then start else |lst| - 1;
    var e := if end < 0 then 0 else if end < |lst| then end else |lst|;
    if s <= e then lst[s..e] else []
  }

  function StartLineno(lineno: nat, context: nat): (r: nat)
    ensures r >= 1
  {
    if lineno > context then lineno - context else 1
  }

  function EndLineno(lineno: nat, context: nat): nat {
    lineno + context + 1 + if lineno < context then context - lineno else 0
  }

  function LineWindow<T>(lines: seq<T>, lineno: nat, context: nat): seq<T>
    requires lines != []
  {
    SatSublist(lines, StartLineno(lineno, context) - 1, EndLineno(lineno, context) - 1)
  }

  /**
   * The first line of the window has the number it is labelled with exactly when the file
   * is long enough; the window then is the lines from there on, up to its lower end.
   */
  lemma WindowIsExact<T>(lines: seq<T>, lineno: nat, context: nat)
    requires lines != []
    ensures var start, end := StartLineno(lineno, context), EndLineno(lineno, context);
            && (start <= |lines| ==>
                  LineWindow(lines, lineno, context) ==
                      lines[start - 1..if end - 1 < |lines| then end - 1 else |lines|])
            && (start > |lines| ==> LineWindow(lines, lineno, context) == [lines[|lines| - 1]])
  {
  }

  /** A line of the file is in its own window, with every line that is at most `context` lines away. */
  lemma WindowHoldsLine<T>(lines: seq<T>, lineno: nat, context: nat, other: nat)
    requires 1 <= lineno <= |lines| && 1 <= other <= |lines|
    requires lineno - context <= other <= lineno + context
    ensures var start := StartLineno(lineno, context);
            && start <= other < start + |LineWindow(lines, lineno, context)|
            && LineWindow(lines, lineno, context)[other - start] == lines[other - 1]
  {
  }

  /**
   * The lines of the window, by their numbers: as many before and behind as asked for,
   * and where there are too few lines before, more behind.
   */
  lemma WindowByNumbers<T>(lines: seq<T>, lineno: nat, context: nat)
    requires lines != [] && lineno >= 1
    ensures var first := if lineno - context > 1 then lineno - context else 1;
            var last := if lineno < context then 2 * context else lineno + context;
            first <= |lines| ==>
              && first == StartLineno(lineno, context)
              && LineWindow(lines, lineno, context) == lines[first - 1..if last < |lines| then last else |lines|]
  {
  }

  /** The label of a line is its number, right-aligned. */
  lemma LabelReads(lineno: nat)
    ensures Label(lineno)[0] == ' ' && |Label(lineno)| >= 5
    ensures Strtol(Label(lineno), 10) == Some(Saturate(lineno))
  {
    hide Numeral, ValueOf, AllDigits, DigitOf;
    NumeralValue(lineno, 10);
    StrtolDigits(Numeral(lineno, 10), 10);
    PadReads(Numeral(lineno, 10), 4);
    PadLength(Numeral(lineno, 10), 4, ' ');
    BlankReads(Pad(Numeral(lineno, 10), 4, ' '));
  }

  lemma {:induction false} PadReads(s: string, width: nat)
    ensures Strtol(Pad(s, width, ' '), 10) == Strtol(s, 10)
    decreases width - |s|
  {
    if |s| < width {
      BlankReads(s);
      PadReads([' '] + s, width);
    }
  }

  lemma BlankReads(s: string)
    ensures Strtol(" " + s, 10) == Strtol(s, 10)
  {
    assert (" " + s)[1..] == s;
  }

  /** The arrow is in front of the active line, and of no other. */
  lemma ArrowExactly(visible: bool, lineno: nat, active: nat)
    ensures Marker(visible, lineno, active) == " -> " <==> lineno == active
    ensures lineno != active ==> Marker(visible, lineno, active) == if visible then "    " else ""
  {
    assert " -> "[1] == '-' && "    "[1] == ' ';
  }

  // ----- print-source

  /** What is printed for a file with these lines, numbered from 1. */
  function PrintSource(lines: seq<string>, lineno: nat, context: nat, env: TypesEnv, useColor: bool): string
    requires AreLines(lines) && lines != []
  {
    TokenizeLossless(lines);
    ColorTokens(LineWindow(Tokenize(lines), lineno, context), env, StartLineno(lineno, context), lineno, useColor)
  }

  /** The printed form of plain lines. */
  function PlainLines(lines: seq<string>, lineno: nat, active: nat): string {
    if lines == [] then ""
    else Label(lineno) + Marker(VisibleText(lines[0]), lineno, active) + lines[0] + "\n"
         + PlainLines(lines[1..], lineno + 1, active)
  }

  lemma {:induction false} FormatPlain(tokens: Tokens, env: TypesEnv)
    ensures FormatTokens(tokens, env, false) == Texts(tokens)
    ensures VisibleContent(tokens) <==> VisibleText(Texts(tokens))
  {
    if tokens != [] {
      FormatPlain(tokens[1..], env);
      var t, rest := tokens[0].text, Texts(tokens[1..]);
      VisibleSplit(t, rest);
      assert "" + t + "" == t;
      assert VisibleContent(tokens) <==> VisibleText(t) || VisibleContent(tokens[1..]) by {
        if VisibleContent(tokens[1..]) {
          var i :| 0 <= i < |tokens[1..]| && VisibleText(tokens[1..][i].text);
          assert VisibleText(tokens[i + 1].text);
        }
        if VisibleContent(tokens) && !VisibleText(t) {
          var i :| 0 <= i < |tokens| && VisibleText(tokens[i].text);
          assert VisibleText(tokens[1..][i - 1].text);
        }
      }
    }
  }

  lemma VisibleSplit(s: string, t: string)
    ensures VisibleText(s + t) <==> VisibleText(s) || VisibleText(t)
  {
    if VisibleText(t) {
      var i :| 0 <= i < |t| && !IsBlank(t[i]);
      assert (s + t)[|s| + i] == t[i];
    }
    if VisibleText(s) {
      var i :| 0 <= i < |s| && !IsBlank(s[i]);
      assert (s + t)[i] == s[i];
    }
  }

  lemma {:induction false} ColorTokensPlain(tokens: seq<Tokens>, lines: seq<string>, env: TypesEnv, lineno: nat,
                                            active: nat)
    requires |tokens| == |lines| && forall i | 0 <= i < |lines| :: Texts(tokens[i]) == lines[i]
    ensures ColorTokens(tokens, env, lineno, active, false) == PlainLines(lines, lineno, active)
  {
    if lines != [] {
      FormatPlain(tokens[0], env);
      ColorTokensPlain(tokens[1..], lines[1..], env, lineno + 1, active);
    }
  }

  lemma WindowMaps(tokens: seq<Tokens>, lines: seq<string>, lineno: nat, context: nat)
    requires lines != [] && |tokens| == |lines| && forall i | 0 <= i < |lines| :: Texts(tokens[i]) == lines[i]
    ensures var tw, lw := LineWindow(tokens, lineno, context), LineWindow(lines, lineno, context);
            |tw| == |lw| && forall i | 0 <= i < |lw| :: Texts(tw[i]) == lw[i]
  {
  }

  /** Without colour the window is printed verbatim, labelled and marked. */
  lemma PrintsVerbatim(lines: seq<string>, lineno: nat, context: nat, env: TypesEnv)
    requires AreLines(lines) && lines != []
    ensures PrintSource(lines, lineno, context, env, false) ==
            PlainLines(LineWindow(lines, lineno, context), StartLineno(lineno, context), lineno)
  {
    TokenizeLossless(lines);
    hide Tokenize;
    WindowMaps(Tokenize(lines), lines, lineno, context);
    ColorTokensPlain(LineWindow(Tokenize(lines), lineno, context), LineWindow(lines, lineno, context), env,
                     StartLineno(lineno, context), lineno);
  }

  // ----- reading the output back

  function SplitLines(s: string, cur: string): seq<string>
    decreases |s|
  {
    if s == "" then []
    else if s[0] == '\n' then [cur] + SplitLines(s[1..], "")
    else SplitLines(s[1..], cur + [s[0]])
  }

  /** Take the label and the marker off a printed line. */
  function Unlabel(line: string, lineno: nat, active: nat): string {
    var text := if |Label(lineno)| <= |line| then line[|Label(lineno)|..] else "";
    if (lineno == active || VisibleText(text)) && |text| >= 4 then text[4..] else text
  }

  function Unprint(printed: seq<string>, lineno: nat, active: nat): seq<string> {
    if printed == [] then [] else [Unlabel(printed[0], lineno, active)] + Unprint(printed[1..], lineno + 1, active)
  }

  lemma {:induction false} SplitOne(line: string, rest: string, cur: string)
    requires IsLine(line)
    ensures SplitLines(line + "\n" + rest, cur) == [cur + line] + SplitLines(rest, "")
    decreases |line|
  {
    var s := line + "\n" + rest;
    if line == "" {
      assert s[0] == '\n' && s[1..] == rest;
      assert cur + "" == cur;
    } else {
      assert s[0] == line[0] && s[1..] == line[1..] + "\n" + rest;
      SplitOne(line[1..], rest, cur + [line[0]]);
      assert cur + [line[0]] + line[1..] == cur + line;
    }
  }

  lemma LabelIsLine(lineno: nat)
    ensures IsLine(Label(lineno))
  {
    NumeralValue(lineno, 10);
    var s := Numeral(lineno, 10);
    assert forall i | 0 <= i < |s| :: s[i] != '\n';
    PadIsLine(s, 4);
  }

  lemma {:induction false} PadIsLine(s: string, width: nat)
    requires IsLine(s)
    ensures IsLine(Pad(s, width, ' '))
    decreases width - |s|
  {
    if |s| < width {
      PadIsLine([' '] + s, width);
    }
  }

  lemma UnlabelLine(text: string, lineno: nat, active: nat)
    ensures Unlabel(Label(lineno) + Marker(VisibleText(text), lineno, active) + text, lineno, active) == text
  {
  }

  /** Line by line, the output is the label, the marker and the text. */
  lemma {:induction false} PrintedLines(lines: seq<string>, lineno: nat, active: nat, k: nat)
    requires AreLines(lines) && k < |lines|
    ensures var printed := SplitLines(PlainLines(lines, lineno, active), "");
            && |printed| == |lines|
            && printed[k] == Label(lineno + k) + Marker(VisibleText(lines[k]), lineno + k, active) + lines[k]
    decreases |lines|
  {
    hide Label, Marker;
    var line := Label(lineno) + Marker(VisibleText(lines[0]), lineno, active) + lines[0];
    LabelIsLine(lineno);
    SplitOne(line, PlainLines(lines[1..], lineno + 1, active), "");
    assert "" + line == line;
    if |lines| > 1 {
      PrintedLines(lines[1..], lineno + 1, active, if k > 0 then k - 1 else 0);
    }
  }

  lemma {:induction false} FormatIsLine(tokens: Tokens, env: TypesEnv, useColor: bool)
    requires IsLine(Texts(tokens))
    ensures IsLine(FormatTokens(tokens, env, useColor))
  {
    hide PickBeforeColor, DefColor;
    if tokens != [] {
      PartsAreLines(tokens[0].text, Texts(tokens[1..]));
      FormatIsLine(tokens[1..], env, useColor);
      ColorIsLine(tokens[0], env);
    }
  }

  lemma PartsAreLines(s: string, t: string)
    requires IsLine(s + t)
    ensures IsLine(s) && IsLine(t)
  {
    assert forall c | c in s || c in t :: c in s + t;
  }

  lemma ColorIsLine(token: Token, env: TypesEnv)
    ensures IsLine(PickBeforeColor(token, env)) && IsLine(DefColor("0"))
  {
  }

  /** With or without colour, the output has a line for every line, of its label, its marker and its tokens. */
  lemma {:induction false} PrintedTokens(lines: seq<Tokens>, env: TypesEnv, lineno: nat, active: nat,
                                         useColor: bool, k: nat)
    requires k < |lines| && forall i | 0 <= i < |lines| :: IsLine(Texts(lines[i]))
    ensures var printed := SplitLines(ColorTokens(lines, env, lineno, active, useColor), "");
            && |printed| == |lines|
            && printed[k] == Label(lineno + k) + Marker(VisibleContent(lines[k]), lineno + k, active)
                             + FormatTokens(lines[k], env, useColor)
    decreases |lines|
  {
    hide Label, Marker, FormatTokens, IsLine;
    var head := Label(lineno) + Marker(VisibleContent(lines[0]), lineno, active);
    var line := head + FormatTokens(lines[0], env, useColor);
    FormatIsLine(lines[0], env, useColor);
    LabelIsLine(lineno);
    MarkedIsLine(lineno, VisibleContent(lines[0]), active, FormatTokens(lines[0], env, useColor));
    SplitOne(line, ColorTokens(lines[1..], env, lineno + 1, active, useColor), "");
    assert "" + line == line;
    if |lines| > 1 {
      PrintedTokens(lines[1..], env, lineno + 1, active, useColor, if k > 0 then k - 1 else 0);
    }
  }

  lemma MarkedIsLine(lineno: nat, visible: bool, active: nat, text: string)
    requires IsLine(Label(lineno)) && IsLine(text)
    ensures IsLine(Label(lineno) + Marker(visible, lineno, active) + text)
  {
  }

  /** The same for a whole file, tokenized as a whole: line k of the output is line start + k of the file. */
  lemma PrintsTokens(lines: seq<string>, lineno: nat, context: nat, env: TypesEnv, useColor: bool, k: nat)
    requires AreLines(lines) && lines != [] && StartLineno(lineno, context) <= |lines|
    requires k < |LineWindow(lines, lineno, context)|
    ensures |Tokenize(lines)| == |lines|
    ensures var printed := SplitLines(PrintSource(lines, lineno, context, env, useColor), "");
            var number := StartLineno(lineno, context) + k;
            && k < |printed| && number <= |lines|
            && printed[k] == Label(number) + Marker(VisibleContent(Tokenize(lines)[number - 1]), number, lineno)
                             + FormatTokens(Tokenize(lines)[number - 1], env, useColor)
  {
    hide Tokenize, Label, Marker, FormatTokens, ColorTokens, SplitLines, LineWindow, StartLineno, IsLine;
    TokenizeLossless(lines);
    WindowMaps(Tokenize(lines), lines, lineno, context);
    var start, window := StartLineno(lineno, context), LineWindow(Tokenize(lines), lineno, context);
    WindowElement(Tokenize(lines), lineno, context, k);
    WindowAreLines(lines, lineno, context);
    PrintedTokens(window, env, start, lineno, useColor, k);
  }

  lemma WindowElement<T>(lines: seq<T>, lineno: nat, context: nat, k: nat)
    requires lines != [] && StartLineno(lineno, context) <= |lines| && k < |LineWindow(lines, lineno, context)|
    ensures StartLineno(lineno, context) + k <= |lines|
    ensures LineWindow(lines, lineno, context)[k] == lines[StartLineno(lineno, context) + k - 1]
  {
  }

  lemma WindowAreLines(lines: seq<string>, lineno: nat, context: nat)
    requires lines != [] && AreLines(lines)
    ensures AreLines(LineWindow(lines, lineno, context))
  {
  }

  /** The printed text determines the lines: splitting it and taking off the labels gives them back. */
  lemma {:induction false} PrintingRoundTrip(lines: seq<string>, lineno: nat, active: nat)
    requires AreLines(lines)
    ensures Unprint(SplitLines(PlainLines(lines, lineno, active), ""), lineno, active) == lines
    decreases |lines|
  {
    if lines != [] {
      var line := Label(lineno) + Marker(VisibleText(lines[0]), lineno, active) + lines[0];
      LabelIsLine(lineno);
      UnlabelLine(lines[0], lineno, active);
      SplitOne(line, PlainLines(lines[1..], lineno + 1, active), "");
      assert "" + line == line;
      PrintingRoundTrip(lines[1..], lineno + 1, active);
    }
  }

  // ----- colours

  /** Behind the first `m` from i on. */
  function EscapeEnd(s: string, i: nat): (r: nat)
    requires i <= |s|
    ensures i <= r <= |s| && (i < |s| ==> i < r)
    decreases |s| - i
  {
    if i == |s| then i else if s[i] == 'm' then i + 1 else EscapeEnd(s, i + 1)
  }

  /** A text without its colour escapes. */
  function StripColor(s: string): string
    decreases |s|
  {
    if s == "" then ""
    else if s[0] == ESC then StripColor(s[EscapeEnd(s, 0)..])
    else [s[0]] + StripColor(s[1..])
  }

  predicate NoEscape(s: string) {
    ESC !in s
  }

  lemma {:induction false} StripText(t: string, rest: string)
    requires NoEscape(t)
    ensures StripColor(t + rest) == t + StripColor(rest)
    decreases |t|
  {
    if t == "" {
      assert t + rest == rest && t + StripColor(rest) == StripColor(rest);
    } else {
      assert (t + rest)[1..] == t[1..] + rest;
      StripText(t[1..], rest);
      assert [t[0]] + (t[1..] + StripColor(rest)) == t + StripColor(rest);
    }
  }

  lemma {:induction false} EscapeEndAt(s: string, i: nat, e: nat)
    requires i < e <= |s| && s[e - 1] == 'm' && forall k | i <= k < e - 1 :: s[k] != 'm'
    ensures EscapeEnd(s, i) == e
    decreases e - i
  {
    if i + 1 < e {
      EscapeEndAt(s, i + 1, e);
    }
  }

  lemma StripEscape(color: string, rest: string)
    requires 'm' !in color
    ensures StripColor(DefColor(color) + rest) == StripColor(rest)
  {
    var d := DefColor(color);
    var s := d + rest;
    assert forall k | 0 <= k < |d| - 1 :: d[k] != 'm';
    assert s[|d| - 1] == 'm' && forall k | 0 <= k < |d| - 1 :: s[k] == d[k];
    EscapeEndAt(s, 0, |d|);
    assert s[|d|..] == rest;
  }

  lemma StripBefore(token: Token, env: TypesEnv, rest: string)
    ensures StripColor(PickBeforeColor(token, env) + rest) == StripColor(rest)
  {
    hide StripColor, DefColor;
    forall color | 'm' !in color
      ensures StripColor(DefColor(color) + rest) == StripColor(rest)
    {
      StripEscape(color, rest);
    }
    assert "" + rest == rest;
  }

  lemma Assoc(a: string, b: string, c: string)
    ensures (a + b) + c == a + (b + c)
  {
  }

  lemma StripToken(token: Token, env: TypesEnv, rest: string)
    requires NoEscape(token.text)
    ensures StripColor(FormatToken(token, env, true) + rest) == token.text + StripColor(rest)
  {
    var before := PickBeforeColor(token, env);
    assert FormatToken(token, env, true) + rest == before + (token.text + (DefColor("0") + rest));
    StripBefore(token, env, token.text + (DefColor("0") + rest));
    StripText(token.text, DefColor("0") + rest);
    StripEscape("0", rest);
  }

  lemma NoEscapeParts(s: string, t: string)
    requires NoEscape(s + t)
    ensures NoEscape(s) && NoEscape(t)
  {
  }

  lemma {:induction false} StripTokens(tokens: Tokens, env: TypesEnv, rest: string)
    requires NoEscape(Texts(tokens))
    ensures StripColor(FormatTokens(tokens, env, true) + rest) == Texts(tokens) + StripColor(rest)
  {
    hide StripColor, FormatToken;
    if tokens == [] {
      assert "" + rest == rest && "" + StripColor(rest) == StripColor(rest);
    } else {
      NoEscapeParts(tokens[0].text, Texts(tokens[1..]));
      var more := FormatTokens(tokens[1..], env, true);
      Assoc(FormatToken(tokens[0], env, true), more, rest);
      StripToken(tokens[0], env, more + rest);
      StripTokens(tokens[1..], env, rest);
      Assoc(tokens[0].text, Texts(tokens[1..]), StripColor(rest));
    }
  }

  lemma LabelNoEscape(lineno: nat, visible: bool, active: nat)
    ensures NoEscape(Label(lineno) + Marker(visible, lineno, active))
  {
    NumeralValue(lineno, 10);
    var s := Numeral(lineno, 10);
    assert forall i | 0 <= i < |s| :: s[i] != ESC;
    PadNoEscape(s, 4);
  }

  lemma {:induction false} PadNoEscape(s: string, width: nat)
    requires NoEscape(s)
    ensures NoEscape(Pad(s, width, ' '))
    decreases width - |s|
  {
    if |s| < width {
      PadNoEscape([' '] + s, width);
    }
  }

  lemma {:induction false} StripColorTokens(tokens: seq<Tokens>, lines: seq<string>, env: TypesEnv, lineno: nat,
                                            active: nat)
    requires |tokens| == |lines| && forall i | 0 <= i < |lines| :: Texts(tokens[i]) == lines[i] && NoEscape(lines[i])
    ensures StripColor(ColorTokens(tokens, env, lineno, active, true)) == PlainLines(lines, lineno, active)
  {
    hide StripColor, FormatTokens, Label, Marker;
    StripNothing();
    if lines != [] {
      FormatPlain(tokens[0], env);
      var head := Label(lineno) + Marker(VisibleContent(tokens[0]), lineno, active);
      var body := FormatTokens(tokens[0], env, true);
      var tail := ColorTokens(tokens[1..], env, lineno + 1, active, true);
      LabelNoEscape(lineno, VisibleContent(tokens[0]), active);
      StripLine(head, tokens[0], env, tail);
      StripColorTokens(tokens[1..], lines[1..], env, lineno + 1, active);
    }
  }

  lemma StripNothing()
    ensures StripColor("") == ""
  {
  }

  lemma StripLine(head: string, tokens: Tokens, env: TypesEnv, tail: string)
    requires NoEscape(head) && NoEscape(Texts(tokens))
    ensures StripColor(head + FormatTokens(tokens, env, true) + "\n" + tail) ==
        head + Texts(tokens) + "\n" + StripColor(tail)
  {
    hide StripColor, FormatTokens;
    var body := FormatTokens(tokens, env, true);
    assert head + body + "\n" + tail == head + (body + ("\n" + tail));
    StripText(head, body + ("\n" + tail));
    StripTokens(tokens, env, "\n" + tail);
    StripText("\n", tail);
    assert head + (Texts(tokens) + ("\n" + StripColor(tail))) == head + Texts(tokens) + "\n" + StripColor(tail);
  }

  /** Colour only adds escapes: without them the coloured output is the plain one. */
  lemma ColorsOnlyAddEscapes(lines: seq<string>, lineno: nat, context: nat, env: TypesEnv)
    requires AreLines(lines) && lines != []
    requires forall i | 0 <= i < |lines| :: NoEscape(lines[i])
    ensures StripColor(PrintSource(lines, lineno, context, env, true)) ==
        PrintSource(lines, lineno, context, env, false)
  {
    TokenizeLossless(lines);
    PrintsVerbatim(lines, lineno, context, env);
    hide Tokenize;
    WindowMaps(Tokenize(lines), lines, lineno, context);
    StripColorTokens(LineWindow(Tokenize(lines), lineno, context), LineWindow(lines, lineno, context), env,
                     StartLineno(lineno, context), lineno);
  }

  // Colour on any text, also on text that holds escapes of its own.

  /** The codes of all colours, and of none. */
  const COLORS: set<string> := {"0", "31", "32", "33", "34", "35", "96"}

  /** A part of the output: text, or an escape that colour puts in. */
  datatype Piece = Text(s: string) | Escape(color: string)

  predicate KnownColors(pieces: seq<Piece>) {
    forall i | 0 <= i < |pieces| && pieces[i].Escape? :: pieces[i].color in COLORS
  }

  function Coloured(pieces: seq<Piece>): string {
    if pieces == [] then ""
    else (match pieces[0] case Text(s) => s case Escape(color) => DefColor(color)) + Coloured(pieces[1..])
  }

  function Uncoloured(pieces: seq<Piece>): string {
    if pieces == [] then "" else (if pieces[0].Text? then pieces[0].s else "") + Uncoloured(pieces[1..])
  }

  lemma {:induction false} PiecesAppend(p1: seq<Piece>, p2: seq<Piece>)
    ensures Coloured(p1 + p2) == Coloured(p1) + Coloured(p2)
    ensures Uncoloured(p1 + p2) == Uncoloured(p1) + Uncoloured(p2)
  {
    hide Coloured, Uncoloured;
    NoPieces();
    if p1 == [] {
      assert p1 + p2 == p2;
    } else {
      assert (p1 + p2)[0] == p1[0] && (p1 + p2)[1..] == p1[1..] + p2;
      PiecesAppend(p1[1..], p2);
      Assoc(Coloured([p1[0]]), Coloured(p1[1..]), Coloured(p2));
      Assoc(Uncoloured([p1[0]]), Uncoloured(p1[1..]), Uncoloured(p2));
      FirstPiece(p1);
      FirstPiece(p1 + p2);
    }
  }

  lemma NoPieces()
    ensures Coloured([]) == "" && Uncoloured([]) == ""
  {
  }

  lemma FirstPiece(p: seq<Piece>)
    requires p != []
    ensures Coloured(p) == Coloured([p[0]]) + Coloured(p[1..])
    ensures Uncoloured(p) == Uncoloured([p[0]]) + Uncoloured(p[1..])
  {
    var text := match p[0] case Text(s) => s case Escape(color) => DefColor(color);
    assert [p[0]][1..] == [] && text + "" == text;
  }

  lemma TokenPieces(token: Token, env: TypesEnv) returns (pieces: seq<Piece>)
    ensures Coloured(pieces) == FormatToken(token, env, true) && Uncoloured(pieces) == FormatToken(token, env, false)
    ensures KnownColors(pieces) && Escape("0") in pieces && Text(token.text) in pieces
  {
    var after := [Text(token.text), Escape("0")];
    assert after[1..] == [Escape("0")] && [Escape("0")][1..] == [];
    assert Coloured([Escape("0")]) == DefColor("0") && Uncoloured([Escape("0")]) == "";
    assert Coloured(after) == token.text + DefColor("0") && Uncoloured(after) == token.text;
    var before := PickBeforeColor(token, env);
    if before == "" {
      pieces := after;
    } else {
      var color :| before == DefColor(color) && color in COLORS;
      pieces := [Escape(color)] + after;
      assert pieces[1..] == after;
    }
  }

  lemma {:induction false} TokensPieces(tokens: Tokens, env: TypesEnv) returns (pieces: seq<Piece>)
    ensures KnownColors(pieces)
    ensures Coloured(pieces) == FormatTokens(tokens, env, true) &&
        Uncoloured(pieces) == FormatTokens(tokens, env, false)
  {
    if tokens == [] {
      pieces := [];
    } else {
      var first := TokenPieces(tokens[0], env);
      var rest := TokensPieces(tokens[1..], env);
      PiecesAppend(first, rest);
      pieces := first + rest;
    }
  }

  lemma {:induction false} LinesPieces(lines: seq<Tokens>, env: TypesEnv, lineno: nat, active: nat)
    returns (pieces: seq<Piece>)
    ensures KnownColors(pieces)
    ensures Coloured(pieces) == ColorTokens(lines, env, lineno, active, true)
    ensures Uncoloured(pieces) == ColorTokens(lines, env, lineno, active, false)
  {
    if lines == [] {
      pieces := [];
    } else {
      var head := [Text(Label(lineno) + Marker(VisibleContent(lines[0]), lineno, active))];
      var body := TokensPieces(lines[0], env);
      var rest := LinesPieces(lines[1..], env, lineno + 1, active);
      OnePiece(head[0].s);
      OnePiece("\n");
      PiecesAppend(head, body);
      PiecesAppend(head + body, [Text("\n")]);
      PiecesAppend(head + body + [Text("\n")], rest);
      pieces := head + body + [Text("\n")] + rest;
    }
  }

  lemma OnePiece(s: string)
    ensures Coloured([Text(s)]) == s && Uncoloured([Text(s)]) == s
  {
    assert [Text(s)][1..] == [] && s + "" == s;
  }

  /** For all lines whatsoever, the coloured output is the plain output with colour escapes put in. */
  lemma ColorsPutIn(lines: seq<string>, lineno: nat, context: nat, env: TypesEnv)
    requires AreLines(lines) && lines != []
    ensures exists pieces: seq<Piece> ::
              && KnownColors(pieces)
              && Coloured(pieces) == PrintSource(lines, lineno, context, env, true)
              && Uncoloured(pieces) == PrintSource(lines, lineno, context, env, false)
  {
    TokenizeLossless(lines);
    var pieces := LinesPieces(LineWindow(Tokenize(lines), lineno, context), env, StartLineno(lineno, context), lineno);
  }
}
