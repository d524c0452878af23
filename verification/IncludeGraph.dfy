/** Graphs of files that include each other, and the traversals over them. */
module IncludeGraph {
  import opened Words

  /** The files that a file includes directly. */
  type Graph = string -> seq<string>

  /** A file and what it includes, as a tree. */
  datatype Deps = Deps(file: string, includes: seq<Deps>)

  /** The tree is all that f includes, at every level the last include first. */
  ghost predicate Unfolds(inc: Graph, d: Deps, f: string)
    decreases d
  {
    d.file == f && UnfoldsAll(inc, d.includes, inc(f))
  }

  ghost predicate UnfoldsAll(inc: Graph, ds: seq<Deps>, paths: seq<string>)
    decreases ds
  {
    && |ds| == |paths|
    && (ds == [] || (Unfolds(inc, ds[0], paths[|paths| - 1]) && UnfoldsAll(inc, ds[1..], paths[..|paths| - 1])))
  }

  /** A file has only one tree. */
  lemma {:induction false} UnfoldsUnique(inc: Graph, d: Deps, d': Deps, f: string)
    requires Unfolds(inc, d, f) && Unfolds(inc, d', f)
    ensures d == d'
    decreases d
  {
    UnfoldsAllUnique(inc, d.includes, d'.includes, inc(f));
  }

  lemma {:induction false} UnfoldsAllUnique(inc: Graph, ds: seq<Deps>, ds': seq<Deps>, paths: seq<string>)
    requires UnfoldsAll(inc, ds, paths) && UnfoldsAll(inc, ds', paths)
    ensures ds == ds'
    decreases ds
  {
    if ds != [] {
      UnfoldsUnique(inc, ds[0], ds'[0], paths[|paths| - 1]);
      UnfoldsAllUnique(inc, ds[1..], ds'[1..], paths[..|paths| - 1]);
      assert ds == [ds[0]] + ds[1..] && ds' == [ds'[0]] + ds'[1..];
    }
  }

  lemma UnfoldsMore(inc: Graph, d: Deps, ds: seq<Deps>, paths: seq<string>, i: nat)
    requires i < |paths| && Unfolds(inc, d, paths[i]) && UnfoldsAll(inc, ds, paths[..i])
    ensures UnfoldsAll(inc, [d] + ds, paths[..i + 1])
  {
    var more := [d] + ds;
    assert more[1..] == ds && paths[..i + 1][..i] == paths[..i];
  }

  // ----- reachability

  /** A chain of includes. */
  ghost predicate Chain(inc: Graph, p: seq<string>) {
    |p| > 0 && forall i | 0 <= i < |p| - 1 :: p[i + 1] in inc(p[i])
  }

  ghost predicate Reaches(inc: Graph, f: string, g: string) {
    exists p: seq<string> :: Chain(inc, p) && p[0] == f && p[|p| - 1] == g
  }

  // ----- when loading ends

  /** Loading f needs at most `depth` nested calls. */
  ghost predicate LoadsWithin(inc: Graph, f: string, depth: nat)
    decreases depth
  {
    depth > 0 && forall g | g in inc(f) :: LoadsWithin(inc, g, depth - 1)
  }

  /** All chains of includes from f on have at most `depth` files. */
  ghost predicate ChainsWithin(inc: Graph, f: string, depth: nat) {
    forall p: seq<string> :: Chain(inc, p) && p[0] == f ==> |p| <= depth
  }

  /** The nesting is as deep as the chains of includes are long. */
  lemma {:induction false} LoadsWithinExactly(inc: Graph, f: string, depth: nat)
    ensures LoadsWithin(inc, f, depth) <==> ChainsWithin(inc, f, depth)
    decreases depth
  {
    assert Chain(inc, [f]);
    if depth > 0 {
      forall g | g in inc(f)
        ensures LoadsWithin(inc, g, depth - 1) <==> ChainsWithin(inc, g, depth - 1)
      {
        LoadsWithinExactly(inc, g, depth - 1);
      }
      if LoadsWithin(inc, f, depth) {
        forall p: seq<string> | Chain(inc, p) && p[0] == f
          ensures |p| <= depth
        {
          if |p| > 1 {
            ChainTail(inc, p);
          }
        }
      } else {
        var g :| g in inc(f) && !LoadsWithin(inc, g, depth - 1);
        var p: seq<string> :| Chain(inc, p) && p[0] == g && |p| > depth - 1;
        ChainCons(inc, f, p);
      }
    }
  }

  lemma ChainTail(inc: Graph, p: seq<string>)
    requires Chain(inc, p) && |p| > 1
    ensures Chain(inc, p[1..]) && p[0 + 1] in inc(p[0])
  {
  }

  lemma ChainCons(inc: Graph, f: string, p: seq<string>)
    requires Chain(inc, p) && p[0] in inc(f)
    ensures Chain(inc, [f] + p)
  {
  }

  ghost predicate Bounded(inc: Graph, f: string) {
    exists depth: nat :: LoadsWithin(inc, f, depth)
  }

  // ----- files that include each other

  /** The file includes itself, directly or through others. */
  ghost predicate OnCycle(inc: Graph, g: string) {
    exists p: seq<string> :: Chain(inc, p) && |p| > 1 && p[0] == g && p[|p| - 1] == g
  }

  /** No file that f includes, directly or through others, is on a cycle. */
  ghost predicate Acyclic(inc: Graph, f: string) {
    forall g: string | Reaches(inc, f, g) :: !OnCycle(inc, g)
  }

  /** All that f includes is among the given files. */
  ghost predicate Within(inc: Graph, f: string, files: set<string>) {
    forall g: string | Reaches(inc, f, g) :: g in files
  }

  lemma EachOther(inc: Graph, f: string, g: string)
    requires Reaches(inc, f, g) && f in inc(g)
    ensures OnCycle(inc, f)
  {
    var p :| Chain(inc, p) && p[0] == f && p[|p| - 1] == g;
    var q := p + [f];
    forall i | 0 <= i < |q| - 1
      ensures q[i + 1] in inc(q[i])
    {
      assert i + 1 < |p| ==> p[i + 1] in inc(p[i]);
    }
    assert Chain(inc, q);
  }

  /** Along a chain the nesting that is left gets smaller. */
  lemma {:induction false} ChainDescends(inc: Graph, p: seq<string>, depth: nat)
    requires Chain(inc, p) && LoadsWithin(inc, p[0], depth)
    ensures |p| <= depth && LoadsWithin(inc, p[|p| - 1], depth - |p| + 1)
    decreases |p|
  {
    if |p| > 1 {
      ChainTail(inc, p);
      ChainDescends(inc, p[1..], depth - 1);
    }
  }

  /** A file on a cycle has no bound, and neither has a file that includes one. */
  lemma {:induction false} CycleUnbounded(inc: Graph, f: string, g: string, depth: nat)
    requires Reaches(inc, f, g) && OnCycle(inc, g)
    ensures !LoadsWithin(inc, f, depth)
    decreases depth, f != g
  {
    if LoadsWithin(inc, f, depth) {
      if f == g {
        var p :| Chain(inc, p) && |p| > 1 && p[0] == g && p[|p| - 1] == g;
        ChainDescends(inc, p, depth);
        CycleUnbounded(inc, g, g, depth - |p| + 1);
      } else {
        var p :| Chain(inc, p) && p[0] == f && p[|p| - 1] == g;
        ChainDescends(inc, p, depth);
        ReachesSelf(inc, g);
        CycleUnbounded(inc, g, g, depth - |p| + 1);
      }
    }
  }

  lemma SubChain(inc: Graph, p: seq<string>, i: nat, j: nat)
    requires Chain(inc, p) && i < j <= |p|
    ensures Chain(inc, p[i..j])
  {
    var q := p[i..j];
    forall k | 0 <= k < |q| - 1
      ensures q[k + 1] in inc(q[k])
    {
      assert q[k] == p[i + k] && q[k + 1] == p[i + k + 1];
    }
  }

  /** Without cycles a chain does not come back to a file. */
  lemma ChainDistinct(inc: Graph, p: seq<string>)
    requires Chain(inc, p) && Acyclic(inc, p[0])
    ensures Distinct(p)
  {
    forall i, j | 0 <= i < j < |p|
      ensures p[i] != p[j]
    {
      SubChain(inc, p, 0, i + 1);
      assert Reaches(inc, p[0], p[i]) by {
        var q := p[0..i + 1];
        assert Chain(inc, q) && q[0] == p[0] && q[|q| - 1] == p[i];
      }
      SubChain(inc, p, i, j + 1);
      var cycle := p[i..j + 1];
      assert cycle[0] == p[i] && cycle[|cycle| - 1] == p[j] && |cycle| > 1;
    }
  }

  lemma {:induction false} DistinctSize(s: seq<string>, files: set<string>)
    requires Distinct(s) && forall x | x in s :: x in files
    ensures |s| <= |files|
    decreases |s|
  {
    if s != [] {
      var n := |s| - 1;
      DistinctSize(s[..n], files - {s[n]});
    }
  }

  /**
   * When f includes only files of a finite set, its chains of includes are bounded exactly
   * when no file that it includes is on a cycle, and then by the size of the set.
   */
  lemma BoundedExactly(inc: Graph, f: string, files: set<string>)
    requires Within(inc, f, files)
    ensures (exists depth: nat :: ChainsWithin(inc, f, depth)) <==> Acyclic(inc, f)
    ensures Acyclic(inc, f) ==> ChainsWithin(inc, f, |files|)
  {
    if depth: nat :| ChainsWithin(inc, f, depth) {
      LoadsWithinExactly(inc, f, depth);
      forall g: string | Reaches(inc, f, g)
        ensures !OnCycle(inc, g)
      {
        if OnCycle(inc, g) {
          CycleUnbounded(inc, f, g, depth);
        }
      }
    }
    if Acyclic(inc, f) {
      forall p: seq<string> | Chain(inc, p) && p[0] == f
        ensures |p| <= |files|
      {
        ChainDistinct(inc, p);
        forall i | 0 <= i < |p|
          ensures p[i] in files
        {
          SubChain(inc, p, 0, i + 1);
          var q := p[0..i + 1];
          assert Chain(inc, q) && q[0] == f && q[|q| - 1] == p[i];
          assert Reaches(inc, f, p[i]);
        }
        DistinctSize(p, files);
      }
      assert ChainsWithin(inc, f, |files|);
    }
  }

  lemma {:induction false} LoadsWithinMore(inc: Graph, f: string, depth: nat, more: nat)
    requires LoadsWithin(inc, f, depth) && depth <= more
    ensures LoadsWithin(inc, f, more)
    decreases depth
  {
    forall g | g in inc(f)
      ensures LoadsWithin(inc, g, more - 1)
    {
      LoadsWithinMore(inc, g, depth - 1, more - 1);
    }
  }

  lemma {:induction false} CommonBound(inc: Graph, paths: seq<string>) returns (depth: nat)
    requires forall g | g in paths :: Bounded(inc, g)
    ensures forall g | g in paths :: LoadsWithin(inc, g, depth)
  {
    depth := 0;
    for i := 0 to |paths|
      invariant forall k | 0 <= k < i :: LoadsWithin(inc, paths[k], depth)
    {
      assert paths[i] in paths;
      var d: nat :| LoadsWithin(inc, paths[i], d);
      var next := if d < depth then depth else d;
      LoadsWithinMore(inc, paths[i], d, next);
      forall k | 0 <= k < i
        ensures LoadsWithin(inc, paths[k], next)
      {
        LoadsWithinMore(inc, paths[k], depth, next);
      }
      depth := next;
    }
  }

  // ----- which files load-source-file! enters into its table

  /** The files in the table after loading f; None when more than `fuel` nested calls are needed. */
  ghost function Loads(inc: Graph, loaded: set<string>, f: string, fuel: nat): Option<set<string>>
    decreases fuel, 0, 0
  {
    if f in loaded then Some(loaded)
    else if fuel == 0 then None
    else match LoadsAll(inc, loaded, inc(f), fuel - 1)
         case Some(l) => Some(l + {f})
         case None => None
  }

  ghost function LoadsAll(inc: Graph, loaded: set<string>, paths: seq<string>, fuel: nat): Option<set<string>>
    decreases fuel, 1, |paths|
  {
    if paths == [] then Some(loaded)
    else match Loads(inc, loaded, paths[0], fuel)
         case Some(l) => LoadsAll(inc, l, paths[1..], fuel)
         case None => None
  }

  /** A set of files is closed under inclusion. */
  ghost predicate Closed(inc: Graph, files: set<string>) {
    forall g, h | g in files && h in inc(g) :: h in files
  }

  /** Loading adds to a closed table exactly the files that can be reached. */
  lemma LoadsReachable(inc: Graph, loaded: set<string>, f: string, fuel: nat)
    requires Closed(inc, loaded) && Loads(inc, loaded, f, fuel).Some?
    ensures var l := Loads(inc, loaded, f, fuel).value;
            Closed(inc, l) && forall g: string :: g in l <==> g in loaded || Reaches(inc, f, g)
  {
    LoadsCloses(inc, loaded, f, fuel);
    var l := Loads(inc, loaded, f, fuel).value;
    forall g: string | Reaches(inc, f, g)
      ensures g in l
    {
      var p :| Chain(inc, p) && p[0] == f && p[|p| - 1] == g;
      ChainStays(inc, l, p);
    }
  }

  lemma {:induction false} LoadsCloses(inc: Graph, loaded: set<string>, f: string, fuel: nat)
    requires Closed(inc, loaded) && Loads(inc, loaded, f, fuel).Some?
    ensures var l := Loads(inc, loaded, f, fuel).value;
            && Closed(inc, l) && loaded <= l && f in l
            && forall g | g in l :: g in loaded || Reaches(inc, f, g)
    decreases fuel, 0, 0
  {
    if f !in loaded {
      ReachesSelf(inc, f);
      LoadsAllCloses(inc, loaded, inc(f), fuel - 1);
      forall h, g | h in inc(f) && Reaches(inc, h, g)
        ensures Reaches(inc, f, g)
      {
        ReachesVia(inc, f, h, g);
      }
    }
  }

  lemma {:induction false} LoadsAllCloses(inc: Graph, loaded: set<string>, paths: seq<string>, fuel: nat)
    requires Closed(inc, loaded) && LoadsAll(inc, loaded, paths, fuel).Some?
    ensures var l := LoadsAll(inc, loaded, paths, fuel).value;
            && Closed(inc, l) && loaded <= l && (forall g | g in paths :: g in l)
            && forall g | g in l :: g in loaded || exists h | h in paths :: Reaches(inc, h, g)
    decreases fuel, 1, |paths|
  {
    if paths != [] {
      LoadsCloses(inc, loaded, paths[0], fuel);
      LoadsAllCloses(inc, Loads(inc, loaded, paths[0], fuel).value, paths[1..], fuel);
      assert forall g :: g in paths <==> g == paths[0] || g in paths[1..];
    }
  }

  /**
   * Loading a file into a table of loadable files ends exactly when the chains of
   * includes that start at the file are bounded.
   */
  lemma LoadingEnds(inc: Graph, loaded: set<string>, f: string)
    requires forall g | g in loaded :: Bounded(inc, g)
    ensures (exists fuel: nat :: Loads(inc, loaded, f, fuel).Some?) <==>
            exists depth: nat :: ChainsWithin(inc, f, depth)
  {
    if fuel: nat :| Loads(inc, loaded, f, fuel).Some? {
      LoadsBounded(inc, loaded, f, fuel);
      var depth: nat :| LoadsWithin(inc, f, depth);
      LoadsWithinExactly(inc, f, depth);
    }
    if depth: nat :| ChainsWithin(inc, f, depth) {
      LoadsWithinExactly(inc, f, depth);
      BoundSuffices(inc, loaded, f, depth);
    }
  }

  lemma {:induction false} BoundSuffices(inc: Graph, loaded: set<string>, f: string, depth: nat)
    requires LoadsWithin(inc, f, depth)
    ensures Loads(inc, loaded, f, depth).Some?
    decreases depth, 0, 0
  {
    if f !in loaded {
      BoundSufficesAll(inc, loaded, inc(f), depth - 1);
    }
  }

  lemma {:induction false} BoundSufficesAll(inc: Graph, loaded: set<string>, paths: seq<string>, depth: nat)
    requires forall g | g in paths :: LoadsWithin(inc, g, depth)
    ensures LoadsAll(inc, loaded, paths, depth).Some?
    decreases depth, 1, |paths|
  {
    if paths != [] {
      BoundSuffices(inc, loaded, paths[0], depth);
      BoundSufficesAll(inc, Loads(inc, loaded, paths[0], depth).value, paths[1..], depth);
    }
  }

  lemma {:induction false} LoadsBounded(inc: Graph, loaded: set<string>, f: string, fuel: nat)
    requires (forall g | g in loaded :: Bounded(inc, g)) && Loads(inc, loaded, f, fuel).Some?
    ensures var l := Loads(inc, loaded, f, fuel).value;
            loaded <= l && f in l && forall g | g in l :: Bounded(inc, g)
    decreases fuel, 0, 0
  {
    if f !in loaded {
      LoadsAllBounded(inc, loaded, inc(f), fuel - 1);
      var depth := CommonBound(inc, inc(f));
      assert LoadsWithin(inc, f, depth + 1);
    }
  }

  lemma {:induction false} LoadsAllBounded(inc: Graph, loaded: set<string>, paths: seq<string>, fuel: nat)
    requires (forall g | g in loaded :: Bounded(inc, g)) && LoadsAll(inc, loaded, paths, fuel).Some?
    ensures var l := LoadsAll(inc, loaded, paths, fuel).value;
            && loaded <= l
            && (forall g | g in paths :: g in l)
            && forall g | g in l :: Bounded(inc, g)
    decreases fuel, 1, |paths|
  {
    if paths != [] {
      LoadsBounded(inc, loaded, paths[0], fuel);
      LoadsAllBounded(inc, Loads(inc, loaded, paths[0], fuel).value, paths[1..], fuel);
      assert forall g | g in paths :: g == paths[0] || g in paths[1..];
    }
  }

  /** What has a tree is loadable. */
  lemma {:induction false} UnfoldsBounded(inc: Graph, d: Deps, f: string)
    requires Unfolds(inc, d, f)
    ensures Bounded(inc, f)
    decreases d
  {
    UnfoldsAllBounded(inc, d.includes, inc(f));
    var depth := CommonBound(inc, inc(f));
    assert LoadsWithin(inc, f, depth + 1);
  }

  lemma {:induction false} UnfoldsAllBounded(inc: Graph, ds: seq<Deps>, paths: seq<string>)
    requires UnfoldsAll(inc, ds, paths)
    ensures forall g | g in paths :: Bounded(inc, g)
    decreases ds
  {
    if ds != [] {
      var n := |paths| - 1;
      UnfoldsBounded(inc, ds[0], paths[n]);
      UnfoldsAllBounded(inc, ds[1..], paths[..n]);
      assert forall g | g in paths :: g == paths[n] || g in paths[..n];
    }
  }

  // ----- sf-flat-deps

  /** The walk of sf-flat-deps over a tree, given the files met so far. */
  function Flat(d: Deps, met: seq<string>): seq<string>
    decreases d
  {
    if d.file in met then met else FlatAll(d.includes, met + [d.file])
  }

  function FlatAll(ds: seq<Deps>, met: seq<string>): seq<string>
    decreases ds
  {
    if ds == [] then met else FlatAll(ds[1..], Flat(ds[0], met))
  }

  ghost predicate Distinct(s: seq<string>) {
    forall i, j | 0 <= i < j < |s| :: s[i] != s[j]
  }

  /** All that file g includes has been met. */
  ghost predicate Done(inc: Graph, g: string, met: seq<string>) {
    forall h | h in inc(g) :: h in met
  }

  /** What one visit adds: f itself and only files reachable from it, each once and with all their includes. */
  ghost predicate Visited(inc: Graph, f: string, met: seq<string>, met': seq<string>) {
    && met <= met' && Distinct(met')
    && (forall g | g in met' && g !in met :: Reaches(inc, f, g) && Done(inc, g, met'))
  }

  lemma ReachesSelf(inc: Graph, f: string)
    ensures Reaches(inc, f, f)
  {
    assert Chain(inc, [f]);
  }

  lemma ReachesVia(inc: Graph, f: string, g: string, h: string)
    requires g in inc(f) && Reaches(inc, g, h)
    ensures Reaches(inc, f, h)
  {
    var p :| Chain(inc, p) && p[0] == g && p[|p| - 1] == h;
    ChainCons(inc, f, p);
  }

  lemma {:induction false} FlatVisits(inc: Graph, d: Deps, f: string, met: seq<string>)
    requires Unfolds(inc, d, f) && Distinct(met)
    ensures var met' := Flat(d, met); f in met' && Visited(inc, f, met, met')
    decreases d
  {
    if f !in met {
      var met1 := met + [f];
      FlatAllVisits(inc, f, d.includes, inc(f), met1);
      var met' := FlatAll(d.includes, met1);
      ReachesSelf(inc, f);
      assert met1[|met|] == f;
      assert Done(inc, f, met');
    }
  }

  lemma {:induction false} FlatAllVisits(inc: Graph, f: string, ds: seq<Deps>, paths: seq<string>, met: seq<string>)
    requires UnfoldsAll(inc, ds, paths) && Distinct(met)
    requires forall g | g in paths :: g in inc(f)
    ensures var met' := FlatAll(ds, met);
            && Visited(inc, f, met, met')
            && (forall g | g in paths :: g in met')
    decreases ds
  {
    if paths != [] {
      var n := |paths| - 1;
      var last := paths[n];
      FlatVisits(inc, ds[0], last, met);
      var met1 := Flat(ds[0], met);
      FlatAllVisits(inc, f, ds[1..], paths[..n], met1);
      var met' := FlatAll(ds, met);
      forall g | g in met' && g !in met
        ensures Reaches(inc, f, g) && Done(inc, g, met')
      {
        if g in met1 {
          ReachesVia(inc, f, last, g);
        }
      }
      assert forall g | g in paths :: g == last || g in paths[..n];
    }
  }

  /** sf-flat-deps lists every file reachable from f exactly once, and no other. */
  lemma FlatDepsExact(inc: Graph, d: Deps, f: string)
    requires Unfolds(inc, d, f)
    ensures var flat := Flat(d, []);
            Distinct(flat) && forall g: string :: g in flat <==> Reaches(inc, f, g)
  {
    FlatVisits(inc, d, f, []);
    var flat := Flat(d, []);
    forall g: string | Reaches(inc, f, g)
      ensures g in flat
    {
      var p :| Chain(inc, p) && p[0] == f && p[|p| - 1] == g;
      ChainStays(inc, (set x | x in flat), p);
    }
  }

  lemma {:induction false} ChainStays(inc: Graph, met: set<string>, p: seq<string>)
    requires Chain(inc, p) && p[0] in met && Closed(inc, met)
    ensures p[|p| - 1] in met
    decreases |p|
  {
    if |p| > 1 {
      ChainTail(inc, p);
      ChainStays(inc, met, p[1..]);
    }
  }
}
