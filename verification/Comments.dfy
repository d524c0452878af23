/** Comments across lines (section 6.4.9 of C11), and comments that begin before the first line. */
module Comments {
  import opened Words
  import opened CSyntax
  import opened Tokenizer

  // ----- what happens inside a comment

  /** Text of a comment as the scanner cuts it: no token for no text. */
  function CommentText(s: string): Tokens {
    if s == "" then [] else [Token(TtCommentText, s)]
  }

  /**
   * In a block comment the line is comment text up to the first uncomment, behind which
   * normal scanning goes on; without an uncomment the whole line is comment text.
   */
  lemma BlockCommentLine(line: string)
    requires IsLine(line)
    ensures var e := CommentTextEnd(line, 0);
            && (e == |line| ==> LexLine(CommentMode, line) == (CommentMode, CommentText(line)))
            && (e < |line| ==>
                  && e + 2 <= |line| && line[e..e + 2] == C_UNCOMMENT
                  && LexLine(CommentMode, line) ==
                     (LexLine(NormalMode, line[e + 2..]).0,
                      CommentText(line[..e])
                      + ([Token(TtUncomment, C_UNCOMMENT)] + LexLine(NormalMode, line[e + 2..]).1)))
  {
    hide Scan, LexLine, CommentTextEnd, IsLine;
    var e := CommentTextEnd(line, 0);
    TextStep(line);
    if e < |line| {
      UncommentStep(line, e);
    } else {
      assert line[..|line|] == line && line[|line|..] == "";
      ScanComment("");
      assert [Token(TtCommentText, line)] + [] == [Token(TtCommentText, line)];
    }
  }

  lemma TextStep(line: string)
    requires IsLine(line)
    ensures var e := CommentTextEnd(line, 0);
            && IsLine(line[e..])
            && LexLine(CommentMode, line).0 == LexLine(CommentMode, line[e..]).0
            && LexLine(CommentMode, line).1 == CommentText(line[..e]) + LexLine(CommentMode, line[e..]).1
  {
    var e := CommentTextEnd(line, 0);
    SuffixIsLine(line, e);
    ScanComment(line);
    if e > 0 {
      LexLineStep(CommentMode, line, Token(TtCommentText, line[..e]));
    } else {
      assert line[0..] == line;
      assert [] + LexLine(CommentMode, line).1 == LexLine(CommentMode, line).1;
    }
  }

  lemma UncommentStep(line: string, e: nat)
    requires IsLine(line) && e < |line| && C_UNCOMMENT <= line[e..]
    ensures IsLine(line[e..]) && e + 2 <= |line| && line[e..e + 2] == C_UNCOMMENT
    ensures LexLine(CommentMode, line[e..]) ==
            (LexLine(NormalMode, line[e + 2..]).0,
             [Token(TtUncomment, C_UNCOMMENT)] + LexLine(NormalMode, line[e + 2..]).1)
  {
    var rest := line[e..];
    SuffixIsLine(line, e);
    assert rest[2..] == line[e + 2..] && rest[..2] == line[e..e + 2];
    ScanComment(rest);
    hide Scan, CommentTextEnd, LexLine;
    LexLineStep(CommentMode, rest, Token(TtUncomment, C_UNCOMMENT));
  }

  lemma ScanComment(code: string)
    ensures code != "" && C_UNCOMMENT <= code ==>
        Scan(CommentMode, code) == (NormalMode, [Token(TtUncomment, C_UNCOMMENT)])
    ensures code != "" && !(C_UNCOMMENT <= code) ==>
              Scan(CommentMode, code) == (CommentMode, [Token(TtCommentText, code[..CommentTextEnd(code, 0)])])
    ensures code != "" && !(C_UNCOMMENT <= code) <==> CommentTextEnd(code, 0) > 0
    ensures LexLine(CommentMode, "") == (CommentMode, [])
  {
    assert code[0..] == code;
    if C_UNCOMMENT <= code {
      assert code[..2] == C_UNCOMMENT;
    }
  }

  /** A line comment is comment text up to the end of its line. */
  lemma LineCommentLine(line: string)
    requires IsLine(line)
    ensures LexLine(LineCommentMode, line) == (LineCommentMode, CommentText(line))
  {
    if line != "" {
      assert LineCommentTextEnd(line) == |line|;
      assert line[..|line|] == line && line[|line|..] == "";
      LexLineStep(LineCommentMode, line, Token(TtCommentText, line));
      assert LexLine(LineCommentMode, "") == (LineCommentMode, []);
      assert [Token(TtCommentText, line)] + [] == [Token(TtCommentText, line)];
    }
  }

  function CommentLines(lines: seq<string>): (r: seq<Tokens>)
    ensures |r| == |lines| && forall i | 0 <= i < |lines| :: r[i] == CommentText(lines[i])
  {
    if lines == [] then [] else [CommentText(lines[0])] + CommentLines(lines[1..])
  }

  /** The comment goes on over any number of lines without an uncomment. */
  lemma {:induction false} BlockCommentLines(lines: seq<string>, rest: seq<string>)
    requires AreLines(lines + rest) && AreLines(rest)
    requires forall i | 0 <= i < |lines| :: CommentTextEnd(lines[i], 0) == |lines[i]|
    ensures LexLines(CommentMode, lines + rest) ==
            (LexLines(CommentMode, rest).0, CommentLines(lines) + LexLines(CommentMode, rest).1)
    decreases |lines|
  {
    hide LexLine, CommentTextEnd, Scan, IsLine;
    var later := LexLines(CommentMode, rest).1;
    if lines == [] {
      assert lines + rest == rest && [] + later == later;
    } else {
      assert (lines + rest)[0] == lines[0] && (lines + rest)[1..] == lines[1..] + rest;
      BlockCommentLine(lines[0]);
      BlockCommentLines(lines[1..], rest);
      assert [CommentText(lines[0])] + (CommentLines(lines[1..]) + later) == CommentLines(lines) + later;
    }
  }

  /** In normal code a line is cut at the start of a comment, and what follows is scanned as the comment. */
  lemma CommentOpens(rest: string)
    requires IsLine(rest)
    ensures IsLine("/*" + rest) && IsLine("//" + rest)
    ensures LexLine(NormalMode, "/*" + rest) ==
            (LexLine(CommentMode, rest).0, [Token(TtComment, "/*")] + LexLine(CommentMode, rest).1)
    ensures LexLine(NormalMode, "//" + rest) == (LineCommentMode, [Token(TtComment, "//")] + CommentText(rest))
  {
    hide LexLine;
    var block, line := "/*" + rest, "//" + rest;
    assert block[..2] == "/*" && block[2..] == rest && line[..2] == "//" && line[2..] == rest;
    LexLineStep(NormalMode, block, Token(TtComment, "/*"));
    assert !("/*" <= line) by { assert line[1] == '/'; }
    LexLineStep(NormalMode, line, Token(TtComment, "//"));
    LineCommentLine(rest);
  }

  // ----- which tokens can follow which

  /**
   * An automaton over the tokens of some code, which goes on with `rest`: the mode after
   * them, or None if one of them is out of place.
   */
  function Replay(mode: Mode, tokens: Tokens, rest: string): Option<Mode>
    decreases |tokens|
  {
    if tokens == [] then Some(mode)
    else match Follow(mode, tokens[0], Texts(tokens) + rest)
         case Some(mode') => Replay(mode', tokens[1..], rest)
         case None => None
  }

  /** A token at the start of the code. */
  function Follow(mode: Mode, t: Token, code: string): Option<Mode> {
    match mode
    case NormalMode =>
      if "/*" <= code then if t == Token(TtComment, "/*") then Some(CommentMode) else None
      else if "//" <= code then if t == Token(TtComment, "//") then Some(LineCommentMode) else None
      else if "*/" <= code then if t == Token(TtTrailingUncomment, "*/") then Some(NormalMode) else None
      else if t.tag in {TtComment, TtUncomment, TtTrailingUncomment, TtCommentText} then None
      else Some(NormalMode)
    case CommentMode =>
      if "*/" <= code then if t == Token(TtUncomment, "*/") then Some(NormalMode) else None
      else if t.tag == TtCommentText && CommentTextEnd(t.text, 0) == |t.text| then Some(CommentMode)
      else None
    case LineCommentMode =>
      if t == Token(TtCommentText, code) then Some(LineCommentMode) else None
  }

  lemma {:induction false} ReplayAppend(mode: Mode, t1: Tokens, t2: Tokens, rest: string)
    ensures Replay(mode, t1 + t2, rest) ==
            match Replay(mode, t1, Texts(t2) + rest) case Some(mode') => Replay(mode', t2, rest) case None => None
    decreases |t1|
  {
    if t1 == [] {
      assert t1 + t2 == t2;
    } else {
      TextsAppend(t1, t2);
      assert (Texts(t1) + Texts(t2)) + rest == Texts(t1) + (Texts(t2) + rest);
      assert (t1 + t2)[1..] == t1[1..] + t2;
      var next := Follow(mode, t1[0], Texts(t1 + t2) + rest);
      if next.Some? {
        ReplayAppend(next.value, t1[1..], t2, rest);
      }
    }
  }

  lemma ReplayOne(mode: Mode, t: Token, rest: string)
    ensures Replay(mode, [t], rest) == Follow(mode, t, t.text + rest)
  {
    assert [t][1..] == [] && Texts([t]) == t.text + Texts([]) == t.text;
  }

  lemma NormalReplays(code: string)
    requires code != "" && !("/*" <= code) && !("//" <= code)
    ensures Texts(ScanNormal(code)) <= code
    ensures Replay(NormalMode, ScanNormal(code), code[|Texts(ScanNormal(code))|..]) == Some(NormalMode)
  {
    hide FindPrefix, KeywordRegex, LiteralRegex, WhitespaceRegex, IdentifierRegex, ConstantRegex, AnyRegex, Texts;
    var tokens := ScanNormal(code);
    ScanNormalCutsPrefix(code);
    var rest := code[|Texts(tokens)|..];
    assert Texts(tokens) + rest == code;
    if |tokens| == 1 {
      assert tokens == [tokens[0]];
      OneText(tokens[0]);
      ReplayOne(NormalMode, tokens[0], rest);
    } else {
      IncludeReplays(code, rest);
    }
  }

  lemma OneText(t: Token)
    ensures Texts([t]) == t.text
  {
    assert [t][1..] == [] && Texts([t]) == t.text + Texts([]);
  }

  /** The three tokens of an include. */
  lemma IncludeReplays(code: string, rest: string)
    requires PreprocRegex(code).Some? && |ScanPreproc(code)| != 1 && Texts(ScanPreproc(code)) + rest == code
    ensures Replay(NormalMode, ScanPreproc(code), rest) == Some(NormalMode)
  {
    hide Replay, Follow;
    var tokens := ScanPreproc(code);
    var blanks, path := tokens[1], tokens[2];
    assert tokens[1..] == [blanks, path] && tokens[1..][1..] == [path] && [path][1..] == [];
    OneText(path);
    assert Texts([blanks, path]) == blanks.text + path.text;
    PathStarts(code);
    var behind := blanks.text + path.text + rest;
    assert behind[0] == (if blanks.text != "" then blanks.text[0] else path.text[0]);
    assert (path.text + rest)[0] == path.text[0];
    NormalStep(tokens, rest);
    NormalStep([blanks, path], rest);
    NormalStep([path], rest);
    ReplayNothing(NormalMode, rest);
  }

  lemma NormalStep(tokens: Tokens, rest: string)
    requires tokens != [] && tokens[0].tag in {TtPreproc, TtWhitespace, TtIncludeFilepath}
    requires var code := Texts(tokens) + rest; code != "" && code[0] != '/' && code[0] != '*'
    ensures Replay(NormalMode, tokens, rest) == Replay(NormalMode, tokens[1..], rest)
  {
  }

  lemma ReplayNothing(mode: Mode, rest: string)
    ensures Replay(mode, [], rest) == Some(mode)
  {
  }

  /** Blanks are blanks, and a path begins with its delimiter. */
  lemma PathStarts(code: string)
    requires PreprocRegex(code).Some? && PreprocRegex(code).value.pathEnd.Some?
    ensures var m := PreprocRegex(code).value;
            && code[0] == '#'
            && (forall k | m.directiveEnd <= k < m.blankEnd :: code[k] == ' ' || code[k] == '\t')
            && (code[m.blankEnd] == '<' || code[m.blankEnd] == '"')
  {
  }

  lemma ScanReplays(mode: Mode, code: string)
    requires IsLine(code) && code != ""
    ensures Texts(Scan(mode, code).1) <= code
    ensures Replay(mode, Scan(mode, code).1, code[|Texts(Scan(mode, code).1)|..]) == Some(Scan(mode, code).0)
  {
    hide ScanNormal, Replay, Texts;
    ScanCutsPrefix(mode, code);
    if mode == CommentMode {
      TextHasNoUncomment(code);
    }
    var tokens := Scan(mode, code).1;
    var rest := code[|Texts(tokens)|..];
    assert Texts(tokens) + rest == code;
    if mode == NormalMode && !("/*" <= code) && !("//" <= code) {
      NormalReplays(code);
    } else {
      assert mode == LineCommentMode ==> LineCommentTextEnd(code) == |code|;
      assert tokens == [tokens[0]];
      OneText(tokens[0]);
      ReplayOne(mode, tokens[0], rest);
    }
  }

  /** The text in front of the first uncomment contains none, not even across its end. */
  lemma TextHasNoUncomment(code: string)
    ensures var text := code[..CommentTextEnd(code, 0)]; CommentTextEnd(text, 0) == |text|
  {
    var text := code[..CommentTextEnd(code, 0)];
    forall k | 0 <= k < |text|
      ensures C_UNCOMMENT <= text[k..] ==> C_UNCOMMENT <= code[k..]
    {
      assert |text| - k >= 2 ==> text[k..][..2] == code[k..][..2];
    }
  }

  lemma {:induction false} LexLineReplays(mode: Mode, code: string)
    requires IsLine(code)
    ensures Replay(mode, LexLine(mode, code).1, "") == Some(LexLine(mode, code).0)
    decreases |code|
  {
    hide Scan, Follow;
    if code != "" {
      ScanReplays(mode, code);
      var (mode', tokens) := Scan(mode, code);
      var rest := code[|Texts(tokens)|..];
      ScanCutsPrefix(mode, code);
      LexLineReplays(mode', rest);
      LexLineLossless(mode', rest);
      assert rest + "" == rest;
      ReplayAppend(mode, tokens, LexLine(mode', rest).1, "");
    }
  }

  /** Line by line; a line comment ends with its line. */
  function ReplayLines(mode: Mode, lines: seq<Tokens>): Option<Mode>
    decreases |lines|
  {
    if lines == [] then Some(mode)
    else match Replay(if mode == LineCommentMode then NormalMode else mode, lines[0], "")
         case Some(mode') => ReplayLines(mode', lines[1..])
         case None => None
  }

  /**
   * Over all lines the tokens follow each other as comments do: in normal code a comment
   * is opened wherever a token begins at the start of one, and nowhere else, and an
   * uncomment is a trailing one; inside a block comment there is comment text without
   * uncomments up to the next uncomment, which closes it; a line comment is the rest of
   * its line.
   */
  lemma {:induction false} LexLinesReplays(mode: Mode, lines: seq<string>)
    requires AreLines(lines)
    ensures ReplayLines(mode, LexLines(mode, lines).1) == Some(LexLines(mode, lines).0)
    decreases |lines|
  {
    if lines != [] {
      LexLineReplays(AtNewLine(mode), lines[0]);
      LexLinesReplays(LexLine(AtNewLine(mode), lines[0]).0, lines[1..]);
    }
  }

  // ----- comments that begin before the first line

  predicate IsTrailing(t: Token) {
    t.tag == TtTrailingUncomment
  }

  /** lead-comment? */
  predicate HasTrailing(lines: seq<Tokens>) {
    exists i, j | 0 <= i < |lines| && 0 <= j < |lines[i]| :: IsTrailing(lines[i][j])
  }

  /** wrap-leading-comment-line: whether the comment ends in the line, and the line with its comment part joined. */
  function WrapLine(text: string, rest: Tokens): (bool, Tokens)
    decreases |rest|
  {
    if rest == [] then (false, [Token(TtCommentText, text)])
    else if IsTrailing(rest[0]) then (true, [Token(TtCommentText, text)] + rest)
    else WrapLine(text + rest[0].text, rest[1..])
  }

  function WrapLines(lines: seq<Tokens>): seq<Tokens>
    requires HasTrailing(lines)
  {
    var (ends, line) := WrapLine("", lines[0]);
    if ends then [line] + lines[1..]
    else
      WrapLineWrapsTo("", lines[0], |lines[0]|);
      LaterTrailing(lines);
      [line] + WrapLines(lines[1..])
  }

  /** wrap-leading-comment */
  function WrapLeadingComment(lines: seq<Tokens>): seq<Tokens> {
    if HasTrailing(lines) then WrapLines(lines) else lines
  }

  ghost predicate NoTrailing(line: Tokens) {
    forall t | t in line :: !IsTrailing(t)
  }

  lemma LaterTrailing(lines: seq<Tokens>)
    requires HasTrailing(lines) && NoTrailing(lines[0])
    ensures HasTrailing(lines[1..])
  {
  }

  lemma ShiftSlice<T>(s: seq<T>, j: nat)
    requires 0 < j <= |s|
    ensures s[..j][1..] == s[1..][..j - 1] && s[1..][j - 1..] == s[j..]
  {
  }

  /** Wrapping a line whose first trailing uncomment, if any, is at position j. */
  lemma {:induction false} WrapLineWrapsTo(text: string, line: Tokens, j: nat)
    requires j <= |line|
    ensures j < |line| && NoTrailing(line[..j]) && IsTrailing(line[j]) ==>
              WrapLine(text, line) == (true, [Token(TtCommentText, text + Texts(line[..j]))] + line[j..])
    ensures j == |line| ==> (WrapLine(text, line).0 <==> !NoTrailing(line))
    ensures j == |line| && NoTrailing(line) ==>
        WrapLine(text, line) == (false, [Token(TtCommentText, text + Texts(line))])
    decreases |line|
  {
    if line == [] {
      assert text + Texts([]) == text;
    } else if IsTrailing(line[0]) {
      assert line[0] in line && (j > 0 ==> line[..j][0] == line[0]);
      assert text + Texts(line[..0]) == text;
    } else if j > 0 {
      WrapLineWrapsTo(text + line[0].text, line[1..], j - 1);
      ShiftSlice(line, j);
      assert line == [line[0]] + line[1..];
      assert (text + line[0].text) + Texts(line[1..][..j - 1]) == text + Texts(line[..j]);
      assert j == |line| ==> line[..j] == line;
    }
  }

  /**
   * Everything before the first trailing uncomment, at token j of line i, becomes comment
   * text, one token a line; from that uncomment on nothing changes.
   */
  lemma {:induction false} WrapExactly(lines: seq<Tokens>, i: nat, j: nat)
    requires i < |lines| && j < |lines[i]|
    requires IsTrailing(lines[i][j]) && NoTrailing(lines[i][..j])
    requires forall k | 0 <= k < i :: NoTrailing(lines[k])
    ensures HasTrailing(lines)
    ensures WrapLines(lines) ==
            seq(i, k requires 0 <= k < i => [Token(TtCommentText, Texts(lines[k]))])
            + [[Token(TtCommentText, Texts(lines[i][..j]))] + lines[i][j..]]
            + lines[i + 1..]
    decreases i
  {
    if i == 0 {
      WrapLineWrapsTo("", lines[0], j);
      assert "" + Texts(lines[0][..j]) == Texts(lines[0][..j]);
    } else {
      WrapLineWrapsTo("", lines[0], |lines[0]|);
      assert "" + Texts(lines[0]) == Texts(lines[0]);
      WrapExactly(lines[1..], i - 1, j);
      assert lines[1..][i..] == lines[i + 1..];
    }
  }

  /** Wrapping loses nothing either. */
  lemma {:induction false} WrapLossless(lines: seq<Tokens>)
    ensures var out := WrapLeadingComment(lines);
            |out| == |lines| && forall k | 0 <= k < |lines| :: Texts(out[k]) == Texts(lines[k])
  {
    if HasTrailing(lines) {
      var i, j := FirstTrailing(lines);
      WrapExactly(lines, i, j);
      var joined := [Token(TtCommentText, Texts(lines[i][..j]))];
      TextsAppend(joined, lines[i][j..]);
      TextsAppend(lines[i][..j], lines[i][j..]);
      assert lines[i] == lines[i][..j] + lines[i][j..];
      assert Texts(joined) == joined[0].text + Texts(joined[1..]) == joined[0].text;
      forall k | 0 <= k < i
        ensures Texts([Token(TtCommentText, Texts(lines[k]))]) == Texts(lines[k])
      {
        var t := [Token(TtCommentText, Texts(lines[k]))];
        assert Texts(t) == t[0].text + Texts(t[1..]) == t[0].text;
      }
    }
  }

  lemma FirstTrailing(lines: seq<Tokens>) returns (i: nat, j: nat)
    requires HasTrailing(lines)
    ensures i < |lines| && j < |lines[i]| && IsTrailing(lines[i][j]) && NoTrailing(lines[i][..j])
    ensures forall k | 0 <= k < i :: NoTrailing(lines[k])
  {
    i, j := 0, 0;
    var i', j' :| 0 <= i' < |lines| && 0 <= j' < |lines[i']| && IsTrailing(lines[i'][j']);
    assert lines[i'][j'] in lines[i'];
    while !(exists t | t in lines[i] :: IsTrailing(t))
      invariant i <= i' && forall k | 0 <= k < i :: NoTrailing(lines[k])
      decreases i' - i
    {
      assert NoTrailing(lines[i]);
      i := i + 1;
    }
    var at :| 0 <= at < |lines[i]| && IsTrailing(lines[i][at]);
    while !IsTrailing(lines[i][j])
      invariant j <= at && NoTrailing(lines[i][..j])
      decreases at - j
    {
      assert lines[i][..j + 1] == lines[i][..j] + [lines[i][j]];
      j := j + 1;
    }
  }

  // ----- tokenize

  function Tokenize(lines: seq<string>): seq<Tokens>
    requires AreLines(lines)
  {
    WrapLeadingComment(LexLines(NormalMode, lines).1)
  }

  /** tokenize */
  method TokenizeCodeLines(codeLines: seq<string>) returns (out: seq<Tokens>)
    requires AreLines(codeLines)
    ensures out == Tokenize(codeLines)
  {
    var scanner := new Scanner();
    var tokenLines := scanner.TokenizeLines(codeLines);
    out := WrapLeadingComment(tokenLines);
  }

  /** The token texts of every output line add up to the input line. */
  lemma TokenizeLossless(lines: seq<string>)
    requires AreLines(lines)
    ensures |Tokenize(lines)| == |lines|
    ensures forall i | 0 <= i < |lines| :: Texts(Tokenize(lines)[i]) == lines[i]
  {
    LexLinesLossless(NormalMode, lines);
    WrapLossless(LexLines(NormalMode, lines).1);
  }
}
