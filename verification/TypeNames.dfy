/** The names of structs, unions and enums found in token lists. */
module TypeNames {
  import opened Words
  import opened CSyntax
  import opened Tokenizer
  import opened Lexemes

  predicate IsTypeSpec(t: Token) {
    t.tag == TtKeyword && (t.text == "struct" || t.text == "enum" || t.text == "union")
  }

  predicate Skipped(t: Token) {
    t.tag == TtWhitespace || IsTypeSpec(t)
  }

  /** The identifier behind whitespace and type specifiers. */
  function TypeSpecName(tokens: Tokens): Option<string> {
    if tokens == [] then None
    else if tokens[0].tag == TtIdentifier then Some(tokens[0].text)
    else if Skipped(tokens[0]) then TypeSpecName(tokens[1..])
    else None
  }

  /** All names that type specifiers introduce, in source order. */
  function NamesIn(tokens: Tokens): seq<string> {
    if tokens == [] then []
    else Contribution(tokens) + NamesIn(tokens[1..])
  }

  /** filter-keywords: the sublists that begin with a keyword, the last one first. */
  function FilterKeywords(tokens: Tokens, found: seq<Tokens>): seq<Tokens>
    decreases |tokens|
  {
    if tokens == [] then found
    else FilterKeywords(tokens[1..], if tokens[0].tag == TtKeyword then [tokens] + found else found)
  }

  function Flatten(lines: seq<Tokens>): Tokens {
    if lines == [] then [] else lines[0] + Flatten(lines[1..])
  }

  /** Flattening puts lines behind each other. */
  lemma {:induction false} FlattenAppend(lines: seq<Tokens>, more: seq<Tokens>)
    ensures Flatten(lines + more) == Flatten(lines) + Flatten(more)
    ensures forall line: Tokens :: Flatten([line]) == line
  {
    forall line: Tokens
      ensures Flatten([line]) == line
    {
      assert [line][1..] == [] && line + [] == line;
    }
    if lines == [] {
      assert lines + more == more;
    } else {
      assert (lines + more)[0] == lines[0] && (lines + more)[1..] == lines[1..] + more;
      FlattenAppend(lines[1..], more);
    }
  }

  /** A types environment under construction. */
  class TypesEnv {
    var names: seq<string>

    constructor ()
      ensures names == []
    {
      names := [];
    }

    /** store-type-spec! */
    method StoreTypeSpec(tokens: Tokens)
      modifies this
      ensures names == (match TypeSpecName(tokens) case Some(n) => [n] case None => []) + old(names)
    {
      var rest := tokens;
      while rest != []
        invariant names == old(names) && TypeSpecName(tokens) == TypeSpecName(rest)
        decreases |rest|
      {
        if rest[0].tag == TtIdentifier {
          names := [rest[0].text] + names;
          return;
        } else if !Skipped(rest[0]) {
          return;
        }
        rest := rest[1..];
      }
    }

    /** extend-types-env */
    method Extend(lines: seq<Tokens>)
      modifies this
      ensures names == NamesIn(Flatten(lines)) + old(names)
    {
      var keywords := FilterKeywords(Flatten(lines), []);
      KeywordNames(Flatten(lines), []);
      assert NamesAt([]) + NamesIn(Flatten(lines)) == NamesIn(Flatten(lines));
      assert keywords[..0] == [] && names == NamesAt([]) + old(names);
      for i := 0 to |keywords|
        invariant forall k | 0 <= k < |keywords| :: keywords[k] != []
        invariant names == NamesAt(keywords[..i]) + old(names)
      {
        NamesAtLast(keywords, i);
        Assoc(Contribution(keywords[i]), NamesAt(keywords[..i]), old(names));
        if IsTypeSpec(keywords[i][0]) {
          StoreTypeSpec(keywords[i]);
        }
        assert [] + NamesAt(keywords[..i]) == NamesAt(keywords[..i]) && [] + names == names;
      }
      assert keywords[..|keywords|] == keywords;
    }

    /** make-types-env, over the token lines of all given files. */
    method ExtendAll(files: seq<seq<Tokens>>)
      modifies this
      ensures names == AllNames(files) + old(names)
    {
      assert AllNames(files[..0]) + old(names) == names;
      for i := 0 to |files|
        invariant names == AllNames(files[..i]) + old(names)
      {
        Extend(files[i]);
        assert files[..i + 1][..i] == files[..i];
      }
      assert files[..|files|] == files;
    }
  }

  /** The names of several files, each file in front of those before it. */
  function AllNames(files: seq<seq<Tokens>>): seq<string> {
    if files == [] then [] else NamesIn(Flatten(files[|files| - 1])) + AllNames(files[..|files| - 1])
  }

  lemma Assoc(a: seq<string>, b: seq<string>, c: seq<string>)
    ensures (a + b) + c == a + (b + c)
  {
  }

  function Contribution(keyword: Tokens): seq<string>
    requires keyword != []
  {
    if IsTypeSpec(keyword[0]) && TypeSpecName(keyword).Some? then [TypeSpecName(keyword).value] else []
  }

  /** What the sublists contribute when each one is stored in front of the names so far. */
  function NamesAt(keywords: seq<Tokens>): seq<string>
    requires forall k | 0 <= k < |keywords| :: keywords[k] != []
  {
    if keywords == [] then []
    else Contribution(keywords[|keywords| - 1]) + NamesAt(keywords[..|keywords| - 1])
  }

  lemma NamesAtLast(keywords: seq<Tokens>, i: nat)
    requires i < |keywords| && forall k | 0 <= k < |keywords| :: keywords[k] != []
    ensures NamesAt(keywords[..i + 1]) == Contribution(keywords[i]) + NamesAt(keywords[..i])
  {
    assert keywords[..i + 1][..i] == keywords[..i];
  }

  lemma {:induction false} KeywordNames(tokens: Tokens, found: seq<Tokens>)
    requires forall k | 0 <= k < |found| :: found[k] != []
    ensures var keywords := FilterKeywords(tokens, found);
            && (forall k | 0 <= k < |keywords| :: keywords[k] != [])
            && NamesAt(keywords) == NamesAt(found) + NamesIn(tokens)
    decreases |tokens|
  {
    if tokens != [] {
      var found' := if tokens[0].tag == TtKeyword then [tokens] + found else found;
      KeywordNames(tokens[1..], found');
      if tokens[0].tag == TtKeyword {
        NamesAtFirst(tokens, found);
      }
    }
  }

  lemma {:induction false} NamesAtFirst(first: Tokens, rest: seq<Tokens>)
    requires first != [] && forall k | 0 <= k < |rest| :: rest[k] != []
    ensures NamesAt([first] + rest) == NamesAt(rest) + Contribution(first)
    decreases |rest|
  {
    var all := [first] + rest;
    if rest == [] {
      assert all == [first] && all[..0] == [];
    } else {
      assert all[..|all| - 1] == [first] + rest[..|rest| - 1];
      NamesAtFirst(first, rest[..|rest| - 1]);
    }
  }

  // ----- exactness

  ghost predicate Specifier(t: Token) {
    t.tag == TtKeyword && t.text in {"struct", "union", "enum"}
  }

  /** A type specifier at i leads over whitespace and type specifiers to the identifier at j. */
  ghost predicate Introduces(tokens: Tokens, i: nat, j: nat, name: string) {
    && i < j < |tokens|
    && Specifier(tokens[i])
    && (forall k | i < k < j :: tokens[k].tag == TtWhitespace || Specifier(tokens[k]))
    && tokens[j].tag == TtIdentifier && tokens[j].text == name
  }

  lemma {:induction false} TypeSpecNameAt(tokens: Tokens, name: string)
    ensures TypeSpecName(tokens) == Some(name) <==>
            exists j | 0 <= j < |tokens| ::
              (forall k | 0 <= k < j :: Skipped(tokens[k])) && tokens[j].tag == TtIdentifier && tokens[j].text == name
  {
    if tokens != [] && Skipped(tokens[0]) {
      TypeSpecNameAt(tokens[1..], name);
      if TypeSpecName(tokens) == Some(name) {
        var j :| 0 <= j < |tokens[1..]| && (forall k | 0 <= k < j :: Skipped(tokens[1..][k]))
                 && tokens[1..][j].tag == TtIdentifier && tokens[1..][j].text == name;
        assert forall k | 0 < k < j + 1 :: tokens[k] == tokens[1..][k - 1];
        assert tokens[j + 1] == tokens[1..][j];
      }
      if j :| 0 <= j < |tokens| && (forall k | 0 <= k < j :: Skipped(tokens[k]))
              && tokens[j].tag == TtIdentifier && tokens[j].text == name {
        assert tokens[1..][j - 1] == tokens[j];
        assert forall k | 0 <= k < j - 1 :: tokens[1..][k] == tokens[k + 1];
      }
    }
  }

  lemma IntroducesTail(tokens: Tokens, name: string)
    requires tokens != []
    ensures forall i: nat, j: nat :: Introduces(tokens[1..], i, j, name) <==> Introduces(tokens, i + 1, j + 1, name)
  {
    forall i: nat, j: nat
      ensures Introduces(tokens[1..], i, j, name) <==> Introduces(tokens, i + 1, j + 1, name)
    {
      assert i < |tokens[1..]| ==> tokens[1..][i] == tokens[i + 1];
      assert j < |tokens[1..]| ==> tokens[1..][j] == tokens[j + 1];
      assert forall k | i < k < j && k < |tokens[1..]| :: tokens[1..][k] == tokens[k + 1];
      assert forall k | i + 1 < k < j + 1 && k < |tokens| :: tokens[k] == tokens[1..][k - 1];
    }
  }

  lemma IntroducesHere(tokens: Tokens, name: string)
    requires tokens != []
    ensures IsTypeSpec(tokens[0]) && TypeSpecName(tokens) == Some(name) <==>
            exists j: nat :: Introduces(tokens, 0, j, name)
  {
    assert forall t: Token :: IsTypeSpec(t) <==> Specifier(t);
    TypeSpecNameAt(tokens, name);
    if IsTypeSpec(tokens[0]) && TypeSpecName(tokens) == Some(name) {
      var j :| 0 <= j < |tokens| && (forall k | 0 <= k < j :: Skipped(tokens[k]))
               && tokens[j].tag == TtIdentifier && tokens[j].text == name;
      assert Introduces(tokens, 0, j, name);
    }
  }

  /** A name is found exactly when some type specifier introduces it. */
  lemma {:induction false} NamesExact(tokens: Tokens, name: string)
    ensures name in NamesIn(tokens) <==> exists i: nat, j: nat :: Introduces(tokens, i, j, name)
  {
    if tokens != [] {
      NamesExact(tokens[1..], name);
      IntroducesTail(tokens, name);
      IntroducesHere(tokens, name);
      if i: nat, j: nat :| Introduces(tokens, i, j, name) && i > 0 {
        assert Introduces(tokens[1..], i - 1, j - 1, name);
      }
      if i: nat, j: nat :| Introduces(tokens[1..], i, j, name) {
        assert Introduces(tokens, i + 1, j + 1, name);
      }
    }
  }

  /** A line that begins with a type specifier and a name, with blanks in between, introduces the name. */
  lemma SpecifierLine(keyword: string, blanks: string, name: string, rest: string)
    requires keyword in {"struct", "union", "enum"}
    requires blanks != "" && forall i | 0 <= i < |blanks| :: blanks[i] == ' ' || blanks[i] == '\t'
    requires IsWord(name, rest) && !(name in C_KEYWORDS && BlankNext(rest))
    requires !("sizeof" <= name) && name !in C_BUILTIN_TYPES && IsLine(rest)
    ensures IsLine(keyword + (blanks + (name + rest)))
    ensures name in NamesIn(LexLine(NormalMode, keyword + (blanks + (name + rest))).1)
  {
    hide LexLine, Scan, NamesIn, C_KEYWORDS, C_BUILTIN_TYPES, Introduces;
    var t1, t2, t3 := Token(TtKeyword, keyword), Token(TtWhitespace, blanks), Token(TtIdentifier, name);
    var c3 := name + rest;
    var c2 := blanks + c3;
    assert c2[0] == blanks[0] && c3[0] == name[0];
    SpecifierListed(keyword);
    WordToken(keyword, c2);
    BlankToken(blanks, c3);
    WordToken(name, rest);
    FirstToken(name, rest, t3);
    FirstToken(blanks, c3, t2);
    FirstToken(keyword, c2, t1);
    var tokens := LexLine(NormalMode, keyword + c2).1;
    var last := LexLine(NormalMode, rest).1;
    assert tokens == [t1] + ([t2] + ([t3] + last));
    SpecifierTokens(t1, t2, t3, last);
    NamesExact(tokens, name);
  }

  lemma FirstToken(text: string, rest: string, token: Token)
    requires text != "" && token.text == text && IsLine(text) && IsLine(rest)
    requires Scan(NormalMode, text + rest) == (NormalMode, [token])
    ensures IsLine(text + rest)
    ensures LexLine(NormalMode, text + rest) == (LexLine(NormalMode, rest).0, [token] + LexLine(NormalMode, rest).1)
  {
    hide Scan, LexLine;
    assert (text + rest)[|text|..] == rest;
    LexLineStep(NormalMode, text + rest, token);
  }

  lemma SpecifierTokens(t1: Token, t2: Token, t3: Token, last: Tokens)
    requires Specifier(t1) && t2.tag == TtWhitespace && t3.tag == TtIdentifier
    ensures Introduces([t1] + ([t2] + ([t3] + last)), 0, 2, t3.text)
  {
  }

  lemma SpecifierListed(keyword: string)
    requires keyword in {"struct", "union", "enum"}
    ensures keyword in C_KEYWORDS
    ensures forall i | 0 <= i < |keyword| :: WordChar(keyword[i])
    ensures '\n' !in keyword && !('0' <= keyword[0] <= '9')
  {
    assert C_KEYWORDS[12] == "struct" && C_KEYWORDS[13] == "union" && C_KEYWORDS[14] == "enum";
  }
}
