/** Loading source files with all they include, and the type names they give. */
module SourceFiles {
  import opened Words
  import opened CSyntax
  import opened Tokenizer
  import opened Comments
  import opened TypeNames
  import opened IncludeGraph

  /** The file system: lines of a file (none if it cannot be read), and path operations. */
  datatype World = World(lines: string -> seq<string>, exists_: string -> bool, directory: string -> string,
      join: (string, string) -> string)

  ghost predicate LinesOk(w: World) {
    forall path: string :: AreLines(w.lines(path))
  }

  const SEARCH_PATHS: seq<string> := ["/usr/include", "/usr/local/include"]

  /** find-system-header */
  function FindSystemHeader(w: World, paths: seq<string>, header: string): Option<string> {
    if paths == [] then None
    else if w.exists_(w.join(paths[0], header)) then Some(w.join(paths[0], header))
    else FindSystemHeader(w, paths[1..], header)
  }

  /** find-location, for a file path in its delimiters. */
  function FindLocation(w: World, filepath: string, quoted: string): Option<string> {
    if |quoted| < 2 then None
    else
      var header := quoted[1..|quoted| - 1];
      if quoted[0] == '<' then FindSystemHeader(w, SEARCH_PATHS, header)
      else Some(w.join(w.directory(filepath), header))
  }

  /** filter-filepaths: the located includes of a file. */
  function FilterFilepaths(w: World, filepath: string, tokens: Tokens): seq<string> {
    if tokens == [] then []
    else
      (if tokens[0].tag == TtIncludeFilepath
       then match FindLocation(w, filepath, tokens[0].text) case Some(path) => [path] case None => []
       else [])
      + FilterFilepaths(w, filepath, tokens[1..])
  }

  /** A path in brackets is looked for in the directories of the system, in order. */
  lemma BracketsLocate(w: World, filepath: string, header: string)
    ensures FindLocation(w, filepath, "<" + header + ">") ==
            if w.exists_(w.join("/usr/include", header)) then Some(w.join("/usr/include", header))
            else if w.exists_(w.join("/usr/local/include", header)) then Some(w.join("/usr/local/include", header))
            else None
  {
    var quoted := "<" + header + ">";
    assert quoted[0] == '<' && quoted[1..|quoted| - 1] == header;
    assert SEARCH_PATHS[1..] == ["/usr/local/include"] && ["/usr/local/include"][1..] == [];
    assert FindSystemHeader(w, [], header) == None;
    assert FindSystemHeader(w, ["/usr/local/include"], header) ==
           if w.exists_(w.join("/usr/local/include", header)) then Some(w.join("/usr/local/include", header)) else None;
  }

  /** A path in quotes is relative to the directory of the file, whether or not it exists there. */
  lemma QuotesLocate(w: World, filepath: string, header: string)
    ensures FindLocation(w, filepath, "\"" + header + "\"") == Some(w.join(w.directory(filepath), header))
  {
    var quoted := "\"" + header + "\"";
    assert quoted[0] == '"' && quoted[1..|quoted| - 1] == header;
  }

  /** Token i is a file path that locates the path. */
  ghost predicate Locates(w: World, filepath: string, tokens: Tokens, i: int, path: string) {
    && 0 <= i < |tokens| && tokens[i].tag == TtIncludeFilepath
    && FindLocation(w, filepath, tokens[i].text) == Some(path)
  }

  /** A file includes what the file paths among its tokens locate. */
  lemma {:induction false} FilepathsExactly(w: World, filepath: string, tokens: Tokens, path: string)
    ensures path in FilterFilepaths(w, filepath, tokens) <==>
            exists i :: Locates(w, filepath, tokens, i, path)
  {
    if tokens != [] {
      FilepathsExactly(w, filepath, tokens[1..], path);
      if i :| Locates(w, filepath, tokens[1..], i, path) {
        assert Locates(w, filepath, tokens, i + 1, path);
      }
      if i :| Locates(w, filepath, tokens, i, path) && i > 0 {
        assert Locates(w, filepath, tokens[1..], i - 1, path);
      }
      assert path in FilterFilepaths(w, filepath, tokens) ==>
               Locates(w, filepath, tokens, 0, path) || path in FilterFilepaths(w, filepath, tokens[1..]);
    }
  }

  /** The files that each file includes directly. */
  ghost function Includes(w: World): Graph {
    (f: string) => if AreLines(w.lines(f)) then FilterFilepaths(w, f, Flatten(Tokenize(w.lines(f)))) else []
  }

  lemma IncludesAre(w: World, filepath: string)
    requires LinesOk(w)
    ensures Includes(w)(filepath) == FilterFilepaths(w, filepath, Flatten(Tokenize(w.lines(filepath))))
  {
  }

  /** A file includes what the file paths among the tokens of its lines locate, and no more. */
  lemma IncludesExactly(w: World, filepath: string, path: string)
    requires LinesOk(w)
    ensures path in Includes(w)(filepath) <==>
            exists i :: Locates(w, filepath, Flatten(Tokenize(w.lines(filepath))), i, path)
  {
    hide Tokenize, Flatten, Locates, Includes, FilterFilepaths;
    IncludesAre(w, filepath);
    FilepathsExactly(w, filepath, Flatten(Tokenize(w.lines(filepath))), path);
  }

  // ----- the loaded files

  datatype SourceFile = SourceFile(tokenLines: seq<Tokens>, deps: Deps, typesEnv: Option<seq<string>>)

  /** The hash table of sf-flat-deps. */
  class Flattened {
    var met: seq<string>

    constructor ()
      ensures met == []
    {
      met := [];
    }

    method Rec(deps: Deps)
      modifies this
      ensures met == Flat(deps, old(met))
      decreases deps
    {
      if deps.file !in met {
        met := met + [deps.file];
        assert deps.includes[0..] == deps.includes;
        for i := 0 to |deps.includes|
          invariant Flat(deps, old(met)) == FlatAll(deps.includes[i..], met)
        {
          assert deps.includes[i..][0] == deps.includes[i] && deps.includes[i..][1..] == deps.includes[i + 1..];
          Rec(deps.includes[i]);
        }
      }
    }
  }

  ghost function TokensOf(w: World, f: string): seq<Tokens>
    requires LinesOk(w)
  {
    Tokenize(w.lines(f))
  }

  ghost function TokensOfAll(w: World, files: seq<string>): seq<seq<Tokens>>
    requires LinesOk(w)
  {
    if files == [] then [] else TokensOfAll(w, files[..|files| - 1]) + [TokensOf(w, files[|files| - 1])]
  }

  /** The types environment made from scratch for a file with all it includes. */
  ghost function FreshEnv(w: World, deps: Deps): seq<string>
    requires LinesOk(w)
  {
    AllNames(TokensOfAll(w, Flat(deps, [])))
  }

  class SourceTable {
    const world: World
    var table: map<string, SourceFile>

    constructor (world: World)
      requires LinesOk(world)
      ensures Valid() && this.world == world && table == map[]
    {
      this.world, table := world, map[];
    }

    /** An entry is what its file and the files it includes say. */
    ghost predicate Faithful(f: string, sf: SourceFile)
      requires LinesOk(world)
    {
      && sf.tokenLines == TokensOf(world, f)
      && Unfolds(Includes(world), sf.deps, f)
      && (sf.typesEnv.Some? ==> sf.typesEnv.value == FreshEnv(world, sf.deps))
    }

    /** Every entry is faithful, and has the entries of its includes beside it. */
    ghost predicate Valid()
      reads this
    {
      && LinesOk(world)
      && (forall f | f in table :: Faithful(f, table[f]))
      && Closed(Includes(world), table.Keys)
    }

    lemma NewEntry(f: string, includes: seq<Deps>)
      requires LinesOk(world) && UnfoldsAll(Includes(world), includes, Includes(world)(f))
      ensures Faithful(f, SourceFile(Tokenize(world.lines(f)), Deps(f, includes), None))
    {
    }

    lemma IncludesOf(f: string)
      requires LinesOk(world)
      ensures FilterFilepaths(world, f, Flatten(Tokenize(world.lines(f)))) == Includes(world)(f)
      ensures UnfoldsAll(Includes(world), [], Includes(world)(f)[..0])
    {
    }

    ghost predicate Kept(before: map<string, SourceFile>)
      reads this
    {
      forall f | f in before :: f in table && table[f] == before[f]
    }

    /** load-source-file!, for a file on which it ends within `fuel` nested calls. */
    method Load(filepath: string, ghost fuel: nat) returns (sf: SourceFile)
      requires Valid() && Loads(Includes(world), table.Keys, filepath, fuel).Some?
      modifies this
      ensures Valid() && Kept(old(table))
      ensures filepath in table && table[filepath] == sf
      ensures Loads(Includes(world), old(table.Keys), filepath, fuel) == Some(table.Keys)
      decreases fuel
    {
      hide FilterFilepaths, Tokenize, Flatten, Unfolds, UnfoldsAll, FreshEnv, Includes, TokensOf;
      if filepath in table {
        return table[filepath];
      }
      var tokenLines := TokenizeCodeLines(world.lines(filepath));
      var paths := FilterFilepaths(world, filepath, Flatten(tokenLines));
      IncludesOf(filepath);
      var includes: seq<Deps> := [];
      assert paths[0..] == paths;
      for i := 0 to |paths|
        invariant Valid() && Kept(old(table))
        invariant forall k | 0 <= k < i :: paths[k] in table
        invariant UnfoldsAll(Includes(world), includes, paths[..i])
        invariant LoadsAll(Includes(world), old(table.Keys), paths, fuel - 1) ==
            LoadsAll(Includes(world), table.Keys, paths[i..], fuel - 1)
        invariant LoadsAll(Includes(world), table.Keys, paths[i..], fuel - 1).Some?
      {
        assert paths[i..][0] == paths[i] && paths[i..][1..] == paths[i + 1..];
        var included := Load(paths[i], fuel - 1);
        assert Faithful(paths[i], table[paths[i]]);
        UnfoldsMore(Includes(world), included.deps, includes, paths, i);
        includes := [included.deps] + includes;
      }
      assert paths[..|paths|] == paths && paths[|paths|..] == [];
      NewEntry(filepath, includes);
      sf := SourceFile(tokenLines, Deps(filepath, includes), None);
      ghost var loaded := table.Keys;
      table := table[filepath := sf];
      assert table.Keys == loaded + {filepath};
    }

    /**
     * Loading a file ends exactly when chains of includes from it are bounded, whatever
     * other files include; and where it reaches finitely many files, exactly when none of
     * them includes itself, directly or through others. It enters exactly the files that
     * can be reached.
     */
    lemma LoadEnds(f: string)
      requires Valid()
      ensures (exists fuel: nat :: Loads(Includes(world), table.Keys, f, fuel).Some?) <==>
              exists depth: nat :: ChainsWithin(Includes(world), f, depth)
      ensures forall files: set<string> | Within(Includes(world), f, files) ::
                (exists fuel: nat :: Loads(Includes(world), table.Keys, f, fuel).Some?) <==> Acyclic(Includes(world), f)
      ensures forall fuel: nat, g: string | Loads(Includes(world), table.Keys, f, fuel).Some? ::
                g in Loads(Includes(world), table.Keys, f, fuel).value <==> g in table || Reaches(Includes(world), f, g)
    {
      hide Includes, Unfolds, TokensOf, FreshEnv;
      forall g | g in table
        ensures Bounded(Includes(world), g)
      {
        assert Faithful(g, table[g]);
        UnfoldsBounded(Includes(world), table[g].deps, g);
      }
      LoadingEnds(Includes(world), table.Keys, f);
      forall files: set<string> | Within(Includes(world), f, files)
        ensures (exists depth: nat :: ChainsWithin(Includes(world), f, depth)) <==> Acyclic(Includes(world), f)
      {
        BoundedExactly(Includes(world), f, files);
      }
      forall fuel: nat | Loads(Includes(world), table.Keys, f, fuel).Some?
        ensures forall g: string :: g in Loads(Includes(world), table.Keys, f, fuel).value <==>
            g in table || Reaches(Includes(world), f, g)
      {
        LoadsReachable(Includes(world), table.Keys, f, fuel);
      }
    }

    /** sf-deps->token-lines-lst, over the files of sf-flat-deps. */
    method TokenLinesOf(files: seq<string>) returns (lists: seq<seq<Tokens>>)
      requires Valid() && forall f | f in files :: f in table
      ensures lists == TokensOfAll(world, files)
    {
      lists := [];
      for i := 0 to |files|
        invariant lists == TokensOfAll(world, files[..i])
      {
        assert files[..i + 1][..i] == files[..i] && files[i] in files;
        lists := lists + [table[files[i]].tokenLines];
      }
      assert files[..|files|] == files;
    }

    /** sf-types-env: the environment in the table, or a new one that is then kept there. */
    method TypesEnvOf(filepath: string) returns (env: seq<string>)
      requires Valid() && filepath in table
      modifies this
      ensures Valid() && table.Keys == old(table.Keys)
      ensures forall f | f in table :: table[f].deps == old(table)[f].deps
      ensures env == FreshEnv(world, table[filepath].deps)
    {
      hide Includes, TokensOf, Unfolds, Flat, AllNames, TokensOfAll;
      var sf := table[filepath];
      if sf.typesEnv.Some? {
        return sf.typesEnv.value;
      }
      var flattened := new Flattened();
      flattened.Rec(sf.deps);
      ReachableLoaded(filepath);
      var lists := TokenLinesOf(flattened.met);
      var typesEnv := new TypesEnv();
      typesEnv.ExtendAll(lists);
      env := typesEnv.names;
      assert env + [] == env;
      table := table[filepath := sf.(typesEnv := Some(env))];
    }

    lemma ReachableLoaded(f: string)
      requires Valid() && f in table
      ensures forall g | g in Flat(table[f].deps, []) :: g in table
    {
      assert Faithful(f, table[f]);
      FlatDepsExact(Includes(world), table[f].deps, f);
      forall g | g in Flat(table[f].deps, [])
        ensures g in table
      {
        var p :| Chain(Includes(world), p) && p[0] == f && p[|p| - 1] == g;
        ChainStays(Includes(world), table.Keys, p);
      }
    }
  }

  lemma {:induction false} AllNamesExact(w: World, files: seq<string>, name: string)
    requires LinesOk(w)
    ensures name in AllNames(TokensOfAll(w, files)) <==>
        exists g | g in files :: name in NamesIn(Flatten(TokensOf(w, g)))
  {
    hide TokensOf, NamesIn, Flatten;
    if files != [] {
      var n := |files| - 1;
      AllNamesExact(w, files[..n], name);
      assert files == files[..n] + [files[n]];
    }
  }

  /**
   * A name is in the environment of a file exactly when a type specifier introduces it
   * in some file that is reachable by includes.
   */
  lemma TypesEnvExact(w: World, deps: Deps, f: string, name: string)
    requires LinesOk(w) && Unfolds(Includes(w), deps, f)
    ensures name in FreshEnv(w, deps) <==>
            exists g: string, i: nat, j: nat :: Reaches(Includes(w), f, g) &&
                Introduces(Flatten(TokensOf(w, g)), i, j, name)
  {
    FlatDepsExact(Includes(w), deps, f);
    AllNamesExact(w, Flat(deps, []), name);
    forall g: string
      ensures name in NamesIn(Flatten(TokensOf(w, g))) <==>
          exists i: nat, j: nat :: Introduces(Flatten(TokensOf(w, g)), i, j, name)
    {
      NamesExact(Flatten(TokensOf(w, g)), name);
    }
  }
}
