/** Finding a variable by name, with one level counter to tell which entries are in scope. */
module Scope {
  import opened Words
  import opened LineTable
  import opened DieSearch

  datatype Tag = Subprogram | Variable | FormalParameter | OtherTag

  /** Location, type and place of declaration of a variable. */
  datatype VarAttr = VarAttr(loc: nat, typ: nat, declFile: Option<string>, declLine: nat)

  /**
   * What the search reads of an entry. `usable` says that its type and its location
   * attribute are of a supported form.
   */
  datatype Attrs = Attrs(tag: Tag, range: Option<PcRange>, hasLocation: bool, name: Option<string>, usable: bool,
                         variable: VarAttr)
  {
    predicate Ranged() {
      tag == Subprogram && range.Some?
    }

    /** sd_check_pc_in_die: inclusive at both ends. */
    predicate Holds(pc: Word) {
      range.Some? && range.value.lowpc <= pc <= range.value.highpc
    }

    predicate Active(pc: Word) {
      Ranged() && Holds(pc)
    }

    predicate Matches(varName: string) {
      (tag == Variable || tag == FormalParameter) && hasLocation && name == Some(varName) && usable
    }
  }

  datatype Findings = Findings(inScope: bool, scopeLevel: nat, variable: Option<VarAttr>)

  type Walk = seq<Event<Attrs>>

  /** The scope bookkeeping of the callback. */
  function Track(pc: Word, attrs: Attrs, level: nat, f: Findings): Findings {
    var f1 := if level > f.scopeLevel then f else f.(inScope := false);
    if attrs.Ranged() then
      if attrs.Holds(pc) then f1.(inScope := true, scopeLevel := level) else f1.(inScope := false)
    else f1
  }

  /** callback__find_runtime_variable */
  function FindVariable(pc: Word, varName: string, useScope: bool): Callback<Attrs, Findings> {
    (attrs: Attrs, level: nat, f: Findings) =>
      var f1 := if useScope then Track(pc, attrs, level, f) else f;
      if useScope && attrs.tag == Subprogram then (false, f1)
      else if (!useScope || f1.inScope) && attrs.Matches(varName) then (true, f1.(variable := Some(attrs.variable)))
      else (false, f1)
  }

  // ----- what the level counter computes, for any tree

  /** The bookkeeping after the first i entries of a walk. */
  function TrackAll(pc: Word, walk: Walk, f: Findings, i: nat): Findings
    requires i <= |walk| && AllVisits(walk)
  {
    if i == 0 then f else Track(pc, walk[i - 1].attrs, walk[i - 1].level, TrackAll(pc, walk, f, i - 1))
  }

  predicate AllVisits(walk: Walk) {
    forall k | 0 <= k < |walk| :: walk[k].Visit?
  }

  /** Entry r is an active subprogram, entry i lies below it, and no ranged subprogram lies between. */
  ghost predicate LastRangedAbove(pc: Word, walk: Walk, r: nat, i: nat)
    requires i < |walk| && AllVisits(walk)
  {
    && r <= i
    && walk[r].attrs.Active(pc)
    && forall k | r < k <= i :: walk[k].level > walk[r].level && !walk[k].attrs.Ranged()
  }

  /**
   * For every walk whatsoever, an entry counts as in scope exactly when the last ranged
   * subprogram visited so far holds pc and is this entry or an ancestor of it.
   */
  lemma {:induction false} InScopeExactly(pc: Word, walk: Walk, f: Findings, i: nat)
    requires AllVisits(walk) && !f.inScope && i < |walk|
    ensures var f' := TrackAll(pc, walk, f, i + 1);
            && (f'.inScope <==> exists r: nat :: LastRangedAbove(pc, walk, r, i))
            && (forall r: nat :: LastRangedAbove(pc, walk, r, i) ==> walk[r].level == f'.scopeLevel)
  {
    var f' := TrackAll(pc, walk, f, i + 1);
    if walk[i].attrs.Ranged() {
      assert walk[i].attrs.Holds(pc) ==> LastRangedAbove(pc, walk, i, i);
    } else if i > 0 {
      InScopeExactly(pc, walk, f, i - 1);
      forall r: nat | LastRangedAbove(pc, walk, r, i)
        ensures LastRangedAbove(pc, walk, r, i - 1)
      {
      }
      if f'.inScope {
        var r: nat :| LastRangedAbove(pc, walk, r, i - 1);
        assert LastRangedAbove(pc, walk, r, i);
      }
    }
  }

  // ----- what it is meant to compute: ancestry in the tree

  /** Every navigation call succeeds. */
  predicate Sound(forest: seq<Die<Attrs>>) {
    forest == [] || (forest[0].fault == NoFault && Sound(forest[0].children) && Sound(forest[1..]))
  }

  /**
   * For every entry in preorder: is it a proper descendant of an active subprogram, or,
   * when it is a ranged subprogram itself, does its own range hold pc?
   */
  function Scoped(pc: Word, forest: seq<Die<Attrs>>, inherited: bool): seq<bool> {
    if forest == [] then []
    else
      var d := forest[0];
      [if d.attrs.Ranged() then d.attrs.Holds(pc) else inherited]
      + (Scoped(pc, d.children, inherited || d.attrs.Active(pc)) + Scoped(pc, forest[1..], inherited))
  }

  predicate HasRanged(forest: seq<Die<Attrs>>) {
    forest != [] && (forest[0].attrs.Ranged() || HasRanged(forest[0].children) || HasRanged(forest[1..]))
  }

  /** Whether a ranged subprogram was met, on entering the children of an entry. */
  predicate MetBelow(pc: Word, d: Die<Attrs>, met: bool) {
    !d.attrs.Active(pc) && (met || d.attrs.Ranged())
  }

  /**
   * For every entry in preorder: has the walk met a ranged subprogram since it entered
   * the innermost active subprogram above the entry?
   */
  function Met(pc: Word, forest: seq<Die<Attrs>>, met: bool): seq<bool> {
    if forest == [] then []
    else
      var d := forest[0];
      [met]
      + (Met(pc, d.children, MetBelow(pc, d, met))
         + Met(pc, forest[1..], met || d.attrs.Ranged() || HasRanged(d.children)))
  }

  /** What the level counter computes instead of Scoped: a ranged subprogram ends the scope around it. */
  function Shown(pc: Word, forest: seq<Die<Attrs>>, inherited: bool, met: bool): seq<bool> {
    if forest == [] then []
    else
      var d := forest[0];
      [if d.attrs.Ranged() then d.attrs.Holds(pc) else inherited && !met]
      + (Shown(pc, d.children, inherited || d.attrs.Active(pc), MetBelow(pc, d, met))
         + Shown(pc, forest[1..], inherited, met || d.attrs.Ranged() || HasRanged(d.children)))
  }

  /** No ranged subprogram lies below an active one. */
  predicate Unnested(pc: Word, forest: seq<Die<Attrs>>, inside: bool) {
    forest == [] ||
    (&& (inside ==> !forest[0].attrs.Ranged())
     && Unnested(pc, forest[0].children, inside || forest[0].attrs.Active(pc))
     && Unnested(pc, forest[1..], inside))
  }

  /** The inScope flag at every entry of a walk. */
  function Flags(pc: Word, walk: Walk, f: Findings): seq<bool>
    requires AllVisits(walk)
    ensures |Flags(pc, walk, f)| == |walk|
  {
    if walk == [] then []
    else var f' := Track(pc, walk[0].attrs, walk[0].level, f); [f'.inScope] + Flags(pc, walk[1..], f')
  }

  function TrackEnd(pc: Word, walk: Walk, f: Findings): Findings
    requires AllVisits(walk)
  {
    if walk == [] then f else TrackEnd(pc, walk[1..], Track(pc, walk[0].attrs, walk[0].level, f))
  }

  lemma {:induction false} FlagsAppend(pc: Word, w1: Walk, w2: Walk, f: Findings)
    requires AllVisits(w1) && AllVisits(w2)
    ensures Flags(pc, w1 + w2, f) == Flags(pc, w1, f) + Flags(pc, w2, TrackEnd(pc, w1, f))
    ensures TrackEnd(pc, w1 + w2, f) == TrackEnd(pc, w2, TrackEnd(pc, w1, f))
  {
    if w1 == [] {
      assert w1 + w2 == w2;
    } else {
      assert (w1 + w2)[1..] == w1[1..] + w2;
      FlagsAppend(pc, w1[1..], w2, Track(pc, w1[0].attrs, w1[0].level, f));
    }
  }

  lemma {:induction false} FlagIsTracked(pc: Word, walk: Walk, f: Findings, i: nat)
    requires AllVisits(walk) && i < |walk|
    ensures Flags(pc, walk, f)[i] == TrackAll(pc, walk, f, i + 1).inScope
  {
    TrackAllFront(pc, walk, f, i + 1);
    if i > 0 {
      FlagIsTracked(pc, walk[1..], Track(pc, walk[0].attrs, walk[0].level, f), i - 1);
    }
  }

  lemma {:induction false} TrackAllFront(pc: Word, walk: Walk, f: Findings, i: nat)
    requires AllVisits(walk) && 0 < i <= |walk|
    ensures TrackAll(pc, walk, f, i) == TrackAll(pc, walk[1..], Track(pc, walk[0].attrs, walk[0].level, f), i - 1)
  {
    if i > 1 {
      TrackAllFront(pc, walk, f, i - 1);
    } else {
      assert TrackAll(pc, walk, f, 0) == f;
    }
  }

  /** The state in which the bookkeeping enters and leaves sibling trees at `level`. */
  predicate Entering(f: Findings, level: nat, inherited: bool) {
    if inherited then f.inScope && f.scopeLevel < level else f.inScope ==> f.scopeLevel >= level
  }

  /** Entering the children of an entry, and going on behind them. */
  lemma EnterBelow(pc: Word, d: Die<Attrs>, level: nat, inherited: bool, met: bool, f: Findings)
    requires Entering(f, level, inherited && !met)
    ensures var f1 := Track(pc, d.attrs, level, f);
            && f1.inScope == (if d.attrs.Ranged() then d.attrs.Holds(pc) else inherited && !met)
            && Entering(f1, level + 1, (inherited || d.attrs.Active(pc)) && !MetBelow(pc, d, met))
            && (inherited && !met && !d.attrs.Ranged() ==> f1 == f)
            && (d.attrs.Active(pc) ==> f1.scopeLevel == level)
  {
  }

  lemma FlagsSelf(pc: Word, attrs: Attrs, level: nat, rest: Walk, f: Findings)
    requires AllVisits(rest)
    ensures var walk := [Visit(attrs, level)] + rest;
            var f1 := Track(pc, attrs, level, f);
            && AllVisits(walk)
            && Flags(pc, walk, f) == [f1.inScope] + Flags(pc, rest, f1)
            && TrackEnd(pc, walk, f) == TrackEnd(pc, rest, f1)
  {
  }

  lemma PreorderSound(forest: seq<Die<Attrs>>, level: nat)
    requires forest != [] && forest[0].fault == NoFault
    ensures Preorder(forest, level) ==
            [Visit(forest[0].attrs, level)] + (Preorder(forest[0].children, level + 1) + Preorder(forest[1..], level))
  {
  }

  lemma ShownStep(pc: Word, forest: seq<Die<Attrs>>, inherited: bool, met: bool)
    requires forest != []
    ensures var attrs := forest[0].attrs;
            Shown(pc, forest, inherited, met) ==
            [if attrs.Ranged() then attrs.Holds(pc) else inherited && !met]
            + (Shown(pc, forest[0].children, inherited || attrs.Active(pc), MetBelow(pc, forest[0], met))
               + Shown(pc, forest[1..], inherited, met || attrs.Ranged() || HasRanged(forest[0].children)))
    ensures HasRanged(forest) <==> forest[0].attrs.Ranged() || HasRanged(forest[0].children) || HasRanged(forest[1..])
  {
  }

  lemma TrackNothing(pc: Word, level: nat, inherited: bool, met: bool, f: Findings)
    ensures Preorder<Attrs>([], level) == []
    ensures Flags(pc, [], f) == Shown(pc, [], inherited, met) && TrackEnd(pc, [], f) == f
    ensures !HasRanged([])
  {
  }

  /** The level counter computes Shown, for any tree. */
  lemma {:induction false} TrackingIsShown(pc: Word, forest: seq<Die<Attrs>>, level: nat, inherited: bool, met: bool,
                                           f: Findings)
    requires Sound(forest) && Entering(f, level, inherited && !met)
    ensures var walk := Preorder(forest, level);
            && AllVisits(walk)
            && Flags(pc, walk, f) == Shown(pc, forest, inherited, met)
            && Entering(TrackEnd(pc, walk, f), level, inherited && !met && !HasRanged(forest))
            && (inherited && !met && !HasRanged(forest) ==> TrackEnd(pc, walk, f) == f)
    decreases forest
  {
    hide Flags, TrackEnd, Track, Preorder, Shown, HasRanged;
    if forest == [] {
      TrackNothing(pc, level, inherited, met, f);
    } else {
      var d := forest[0];
      var below: Walk, after: Walk := Preorder(d.children, level + 1), Preorder(forest[1..], level);
      var f1 := Track(pc, d.attrs, level, f);
      ShownStep(pc, forest, inherited, met);
      EnterBelow(pc, d, level, inherited, met, f);
      var met2 := met || d.attrs.Ranged() || HasRanged(d.children);
      TrackingIsShown(pc, d.children, level + 1, inherited || d.attrs.Active(pc), MetBelow(pc, d, met), f1);
      TrackingIsShown(pc, forest[1..], level, inherited, met2, TrackEnd(pc, below, f1));
      FlagsAppend(pc, below, after, f1);
      FlagsSelf(pc, d.attrs, level, below + after, f);
      PreorderSound(forest, level);
    }
  }

  /** The flag at entry i is ancestry, unless a ranged subprogram came in between. */
  ghost predicate ShownAt(walk: Walk, shown: seq<bool>, scoped: seq<bool>, met: seq<bool>, i: nat)
    requires i < |walk| && walk[i].Visit? && |walk| == |shown| == |scoped| == |met|
  {
    shown[i] <==> scoped[i] && (walk[i].attrs.Ranged() || !met[i])
  }

  ghost predicate AllShown(walk: Walk, shown: seq<bool>, scoped: seq<bool>, met: seq<bool>) {
    && AllVisits(walk)
    && |walk| == |shown| == |scoped| == |met|
    && forall i | 0 <= i < |walk| :: ShownAt(walk, shown, scoped, met, i)
  }

  lemma AllShownAppend(w1: Walk, s1: seq<bool>, c1: seq<bool>, m1: seq<bool>,
                       w2: Walk, s2: seq<bool>, c2: seq<bool>, m2: seq<bool>)
    requires AllShown(w1, s1, c1, m1) && AllShown(w2, s2, c2, m2)
    ensures AllShown(w1 + w2, s1 + s2, c1 + c2, m1 + m2)
  {
    forall i | 0 <= i < |w1 + w2|
      ensures ShownAt(w1 + w2, s1 + s2, c1 + c2, m1 + m2, i)
    {
      if i < |w1| {
        assert ShownAt(w1, s1, c1, m1, i);
      } else {
        assert ShownAt(w2, s2, c2, m2, i - |w1|);
      }
    }
  }

  lemma {:induction false} ShownExactly(pc: Word, forest: seq<Die<Attrs>>, level: nat, inherited: bool, met: bool)
    requires Sound(forest)
    ensures AllShown(Preorder(forest, level), Shown(pc, forest, inherited, met), Scoped(pc, forest, inherited),
        Met(pc, forest, met))
    decreases forest
  {
    if forest != [] {
      hide AllShown;
      var d, rest := forest[0], forest[1..];
      var inherited1, met1 := inherited || d.attrs.Active(pc), MetBelow(pc, d, met);
      var met2 := met || d.attrs.Ranged() || HasRanged(d.children);
      PreorderSound(forest, level);
      ShownExactly(pc, d.children, level + 1, inherited1, met1);
      ShownExactly(pc, rest, level, inherited, met2);
      AllShownAppend(Preorder(d.children, level + 1), Shown(pc, d.children, inherited1, met1),
                     Scoped(pc, d.children, inherited1), Met(pc, d.children, met1),
                     Preorder(rest, level), Shown(pc, rest, inherited, met2),
                     Scoped(pc, rest, inherited), Met(pc, rest, met2));
      ShownSelf(pc, d.attrs, level, inherited, met);
      AllShownAppend([Visit(d.attrs, level)], [if d.attrs.Ranged() then d.attrs.Holds(pc) else inherited && !met],
                     [if d.attrs.Ranged() then d.attrs.Holds(pc) else inherited], [met],
                     Preorder(d.children, level + 1) + Preorder(rest, level),
                     Shown(pc, d.children, inherited1, met1) + Shown(pc, rest, inherited, met2),
                     Scoped(pc, d.children, inherited1) + Scoped(pc, rest, inherited),
                     Met(pc, d.children, met1) + Met(pc, rest, met2));
    }
  }

  lemma ShownSelf(pc: Word, attrs: Attrs, level: nat, inherited: bool, met: bool)
    ensures AllShown([Visit(attrs, level)], [if attrs.Ranged() then attrs.Holds(pc) else inherited && !met],
                     [if attrs.Ranged() then attrs.Holds(pc) else inherited], [met])
  {
  }

  /**
   * For any tree: an entry counts as in scope exactly when it is below an active
   * subprogram and no ranged subprogram was met since the innermost one above it. So
   * what counts as in scope is, and the counter computes ancestry exactly when no
   * entry other than a ranged subprogram has one in between.
   */
  lemma TrackingExactly(pc: Word, forest: seq<Die<Attrs>>, level: nat, f: Findings)
    requires Sound(forest) && Entering(f, level, false)
    ensures var walk, scoped, met := Preorder(forest, level), Scoped(pc, forest, false), Met(pc, forest, false);
            && AllVisits(walk)
            && |walk| == |scoped| == |met|
            && var flags := Flags(pc, walk, f);
               && AllShown(walk, flags, scoped, met)
               && (forall i | 0 <= i < |walk| && flags[i] :: scoped[i])
               && (flags == scoped <==> forall i | 0 <= i < |walk| && scoped[i] && met[i] :: walk[i].attrs.Ranged())
  {
    TrackingIsShown(pc, forest, level, false, false, f);
    ShownExactly(pc, forest, level, false, false);
    ShownMeans(Preorder(forest, level), Flags(pc, Preorder(forest, level), f), Scoped(pc, forest, false),
        Met(pc, forest, false));
  }

  lemma ShownMeans(walk: Walk, flags: seq<bool>, scoped: seq<bool>, met: seq<bool>)
    requires AllShown(walk, flags, scoped, met)
    ensures forall i | 0 <= i < |walk| && flags[i] :: scoped[i]
    ensures flags == scoped <==> forall i | 0 <= i < |walk| && scoped[i] && met[i] :: walk[i].attrs.Ranged()
  {
    forall i | 0 <= i < |walk|
      ensures flags[i] <==> scoped[i] && (walk[i].attrs.Ranged() || !met[i])
    {
      assert ShownAt(walk, flags, scoped, met, i);
    }
  }

  lemma {:induction false} NoneRanged(pc: Word, forest: seq<Die<Attrs>>)
    requires Unnested(pc, forest, true)
    ensures !HasRanged(forest)
    decreases forest
  {
    if forest != [] {
      NoneRanged(pc, forest[0].children);
      NoneRanged(pc, forest[1..]);
    }
  }

  lemma {:induction false} UnnestedShown(pc: Word, forest: seq<Die<Attrs>>, inherited: bool, met: bool)
    requires Unnested(pc, forest, inherited) && !(inherited && met)
    ensures Shown(pc, forest, inherited, met) == Scoped(pc, forest, inherited)
    decreases forest
  {
    if forest != [] {
      var d := forest[0];
      if inherited {
        NoneRanged(pc, d.children);
      }
      UnnestedShown(pc, d.children, inherited || d.attrs.Active(pc), MetBelow(pc, d, met));
      UnnestedShown(pc, forest[1..], inherited, met || d.attrs.Ranged() || HasRanged(d.children));
    }
  }

  // ----- ancestry by levels

  /** Entry a is above entry i: its level is lower than that of all entries up to i. */
  ghost predicate Above(walk: Walk, a: nat, i: nat)
    requires AllVisits(walk) && i < |walk|
  {
    a < i && forall k | a < k <= i :: walk[a].level < walk[k].level
  }

  /** The entry is a subprogram from low to high, both inclusive, and pc is in between. */
  ghost predicate HoldsPc(attrs: Attrs, pc: Word) {
    && attrs.tag == Subprogram
    && exists low: Word, high: Word :: attrs.range == Some(PcRange(low, high)) && low <= pc <= high
  }

  /** Entry i is below a subprogram that holds pc. */
  ghost predicate InFunction(walk: Walk, pc: Word, i: nat)
    requires AllVisits(walk) && i < |walk|
  {
    exists a: nat :: a < i && HoldsPc(walk[a].attrs, pc) && Above(walk, a, i)
  }

  ghost predicate LevelsFrom(walk: Walk, level: nat)
    requires AllVisits(walk)
  {
    (forall k | 0 <= k < |walk| :: walk[k].level >= level) && (walk != [] ==> walk[0].level == level)
  }

  /** Behind a tree, at its level or above it, nothing of the tree is above an entry. */
  lemma InFunctionBehind(first: Walk, second: Walk, pc: Word, level: nat, j: nat)
    requires AllVisits(first) && AllVisits(second) && LevelsFrom(second, level) && j < |second|
    requires forall k | 0 <= k < |first| :: first[k].level >= level
    ensures AllVisits(first + second) && InFunction(first + second, pc, |first| + j) <==> InFunction(second, pc, j)
  {
    var walk := first + second;
    var n := |first| + j;
    assert walk[|first|] == second[0] && forall k | 0 <= k < |first| :: walk[k] == first[k];
    assert forall k | 0 <= k <= j :: walk[|first| + k] == second[k];
    forall a: nat | Above(walk, a, n)
      ensures a >= |first| && Above(second, a - |first|, j)
    {
    }
    forall a: nat | a < j && Above(second, a, j)
      ensures Above(walk, |first| + a, |first| + j)
    {
      assert forall k | |first| + a < k <= |first| + j :: walk[k] == second[k - |first|];
    }
    if InFunction(walk, pc, |first| + j) {
      var a: nat :| a < |first| + j && HoldsPc(walk[a].attrs, pc) && Above(walk, a, |first| + j);
      assert HoldsPc(second[a - |first|].attrs, pc);
    }
    if InFunction(second, pc, j) {
      var a: nat :| a < j && HoldsPc(second[a].attrs, pc) && Above(second, a, j);
      assert HoldsPc(walk[|first| + a].attrs, pc);
    }
  }

  /** What comes behind an entry changes nothing for it. */
  lemma InFunctionBefore(first: Walk, second: Walk, pc: Word, i: nat)
    requires AllVisits(first) && AllVisits(second) && i < |first|
    ensures AllVisits(first + second) && InFunction(first + second, pc, i) <==> InFunction(first, pc, i)
  {
    var walk := first + second;
    forall a: nat | a < i
      ensures Above(walk, a, i) <==> Above(first, a, i)
    {
      assert forall k | a <= k <= i :: walk[k] == first[k];
    }
  }

  /** An entry is in a function under a parent if the parent is one that holds pc, or it was so without it. */
  lemma InFunctionBelow(attrs: Attrs, level: nat, below: Walk, pc: Word, j: nat)
    requires AllVisits(below) && j < |below| && LevelsFrom(below, level + 1)
    ensures var walk := [Visit(attrs, level)] + below;
            AllVisits(walk) && (InFunction(walk, pc, 1 + j) <==> HoldsPc(attrs, pc) || InFunction(below, pc, j))
  {
    var walk := [Visit(attrs, level)] + below;
    assert forall k | 0 < k <= 1 + j :: walk[k] == below[k - 1];
    assert Above(walk, 0, 1 + j);
    forall a: nat | a < j
      ensures Above(walk, 1 + a, 1 + j) <==> Above(below, a, j)
    {
      assert forall k | a <= k <= j :: walk[1 + k] == below[k];
    }
    if InFunction(walk, pc, 1 + j) && !HoldsPc(attrs, pc) {
      var a: nat :| a < 1 + j && HoldsPc(walk[a].attrs, pc) && Above(walk, a, 1 + j);
      assert HoldsPc(below[a - 1].attrs, pc) && Above(below, a - 1, j);
    }
    if InFunction(below, pc, j) {
      var a: nat :| a < j && HoldsPc(below[a].attrs, pc) && Above(below, a, j);
      assert HoldsPc(walk[1 + a].attrs, pc) && Above(walk, 1 + a, 1 + j);
    }
    if HoldsPc(attrs, pc) {
      assert HoldsPc(walk[0].attrs, pc);
    }
  }

  /** Scoped, entry by entry: below a subprogram that holds pc. */
  ghost predicate ScopedAt(walk: Walk, scoped: seq<bool>, pc: Word, inherited: bool, i: nat)
    requires AllVisits(walk) && |walk| == |scoped| && i < |walk|
  {
    !walk[i].attrs.Ranged() ==> (scoped[i] <==> inherited || InFunction(walk, pc, i))
  }

  ghost predicate ScopedRight(walk: Walk, scoped: seq<bool>, pc: Word, inherited: bool, level: nat) {
    && AllVisits(walk) && LevelsFrom(walk, level) && |walk| == |scoped|
    && forall i | 0 <= i < |walk| :: ScopedAt(walk, scoped, pc, inherited, i)
  }

  /** A tree and the trees behind it. */
  lemma ScopedJoin(pc: Word, attrs: Attrs, level: nat, inherited: bool, below: Walk, b: seq<bool>,
                   after: Walk, c: seq<bool>)
    requires ScopedRight(below, b, pc, inherited || attrs.Active(pc), level + 1)
    requires ScopedRight(after, c, pc, inherited, level)
    ensures ScopedRight([Visit(attrs, level)] + (below + after),
                        [if attrs.Ranged() then attrs.Holds(pc) else inherited] + (b + c), pc, inherited, level)
  {
    hide InFunction;
    var front := [Visit(attrs, level)] + below;
    var walk := [Visit(attrs, level)] + (below + after);
    var scoped := [if attrs.Ranged() then attrs.Holds(pc) else inherited] + (b + c);
    assert walk == front + after;
    HoldsIsActive(attrs, pc);
    forall i | 0 <= i < |walk|
      ensures ScopedAt(walk, scoped, pc, inherited, i)
    {
      if i == 0 {
        NothingAbove(walk, pc);
      } else if i < |front| {
        InFunctionBefore(front, after, pc, i);
        InFunctionBelow(attrs, level, below, pc, i - 1);
        assert ScopedAt(below, b, pc, inherited || attrs.Active(pc), i - 1);
      } else {
        InFunctionBehind(front, after, pc, level, i - |front|);
        assert ScopedAt(after, c, pc, inherited, i - |front|);
      }
    }
  }

  lemma NothingAbove(walk: Walk, pc: Word)
    requires AllVisits(walk) && walk != []
    ensures !InFunction(walk, pc, 0)
  {
  }

  /** The range test of the search, with its bounds. */
  lemma HoldsIsActive(attrs: Attrs, pc: Word)
    ensures HoldsPc(attrs, pc) <==> attrs.Active(pc)
  {
    if attrs.Active(pc) {
      assert attrs.range == Some(PcRange(attrs.range.value.lowpc, attrs.range.value.highpc));
    }
  }

  lemma {:induction false} ScopedIsAncestry(pc: Word, forest: seq<Die<Attrs>>, level: nat, inherited: bool)
    requires Sound(forest)
    ensures ScopedRight(Preorder(forest, level), Scoped(pc, forest, inherited), pc, inherited, level)
    decreases forest
  {
    if forest != [] {
      var d := forest[0];
      PreorderSound(forest, level);
      ScopedIsAncestry(pc, d.children, level + 1, inherited || d.attrs.Active(pc));
      ScopedIsAncestry(pc, forest[1..], level, inherited);
      ScopedJoin(pc, d.attrs, level, inherited,
                 Preorder(d.children, level + 1), Scoped(pc, d.children, inherited || d.attrs.Active(pc)),
                 Preorder(forest[1..], level), Scoped(pc, forest[1..], inherited));
    }
  }

  /**
   * The level counter computes ancestry, unless ranged subprograms are nested in active
   * ones: an entry counts as in scope exactly when it is below a subprogram from low to
   * high with low <= pc <= high.
   */
  lemma TrackingIsAncestry(pc: Word, forest: seq<Die<Attrs>>, level: nat, f: Findings)
    requires Sound(forest) && Unnested(pc, forest, false) && Entering(f, level, false)
    ensures var walk := Preorder(forest, level);
            && AllVisits(walk)
            && Flags(pc, walk, f) == Scoped(pc, forest, false)
            && forall i | 0 <= i < |walk| && !walk[i].attrs.Ranged() ::
                 Flags(pc, walk, f)[i] <==> InFunction(walk, pc, i)
  {
    TrackingIsShown(pc, forest, level, false, false, f);
    UnnestedShown(pc, forest, false, false);
    ScopedIsAncestry(pc, forest, level, false);
    var walk := Preorder(forest, level);
    forall i | 0 <= i < |walk| && !walk[i].attrs.Ranged()
      ensures Flags(pc, walk, f)[i] <==> InFunction(walk, pc, i)
    {
      assert ScopedAt(walk, Scoped(pc, forest, false), pc, false, i);
    }
  }

  // ----- sd_runtime_variable

  /** The first entry of a walk that is flagged and matches. */
  function FirstIndex(walk: Walk, flags: seq<bool>, varName: string): (r: nat)
    requires AllVisits(walk) && |flags| == |walk|
    ensures r <= |walk| && (r < |walk| ==> flags[r] && walk[r].attrs.Matches(varName))
    ensures forall k | 0 <= k < r :: !(flags[k] && walk[k].attrs.Matches(varName))
  {
    if walk == [] || (flags[0] && walk[0].attrs.Matches(varName)) then 0
    else 1 + FirstIndex(walk[1..], flags[1..], varName)
  }

  function FirstMatch(walk: Walk, flags: seq<bool>, varName: string): Option<VarAttr>
    requires AllVisits(walk) && |flags| == |walk|
  {
    var i := FirstIndex(walk, flags, varName);
    if i < |walk| then Some(walk[i].attrs.variable) else None
  }

  function All(n: nat): seq<bool> {
    seq(n, _ => true)
  }

  lemma {:induction false} ScanFindsScoped(pc: Word, varName: string, walk: Walk, f: Findings)
    requires AllVisits(walk)
    ensures var (res, f') := Scan(walk, FindVariable(pc, varName, true), f);
            match FirstMatch(walk, Flags(pc, walk, f), varName)
            case Some(v) => res == DW_DLV_OK && f'.variable == Some(v)
            case None => res == DW_DLV_NO_ENTRY
  {
    if walk != [] {
      var f1 := Track(pc, walk[0].attrs, walk[0].level, f);
      ScanFindsScoped(pc, varName, walk[1..], f1);
      assert Flags(pc, walk, f)[1..] == Flags(pc, walk[1..], f1);
    }
  }

  lemma {:induction false} ScanFindsAny(pc: Word, varName: string, walk: Walk, f: Findings)
    requires AllVisits(walk)
    ensures var (res, f') := Scan(walk, FindVariable(pc, varName, false), f);
            match FirstMatch(walk, All(|walk|), varName)
            case Some(v) => res == DW_DLV_OK && f'.variable == Some(v)
            case None => res == DW_DLV_NO_ENTRY
  {
    if walk != [] {
      ScanFindsAny(pc, varName, walk[1..], f);
      assert All(|walk|)[1..] == All(|walk[1..]|);
    }
  }

  /** What the two searches of sd_runtime_variable amount to. */
  function LookUp(units: seq<Unit<Attrs>>, units2: seq<Unit<Attrs>>, pc: Word, varName: string): Option<VarAttr> {
    var (res, f) := SearchUnits(units, FindVariable(pc, varName, true), Findings(false, 0, None));
    match res
    case DW_DLV_ERROR => None
    case DW_DLV_OK => f.variable
    case DW_DLV_NO_ENTRY =>
      var (res2, f2) := SearchUnits(units2, FindVariable(pc, varName, false), f);
      if res2.DW_DLV_OK? then f2.variable else None
  }

  /** sd_runtime_variable: search in scope, and then, without success, anywhere. */
  method RuntimeVariable(dbg: DwarfDebug<Attrs>, pc: Word, varName: string) returns (r: Option<VarAttr>)
    requires dbg.Valid()
    modifies dbg
    ensures dbg.Valid()
    ensures r == LookUp(old(dbg.Ahead()), dbg.info + dbg.types, pc, varName)
  {
    var searchFindings := Findings(false, 0, None);
    var res;
    res, searchFindings := dbg.SearchDbg(FindVariable(pc, varName, true), searchFindings);
    if res.DW_DLV_ERROR? {
      return None;
    } else if res.DW_DLV_NO_ENTRY? {
      assert dbg.Ahead() == dbg.info + dbg.types;
      res, searchFindings := dbg.SearchDbg(FindVariable(pc, varName, false), searchFindings);
      if !res.DW_DLV_OK? {
        return None;
      }
    }
    return searchFindings.variable;
  }

  predicate SoundUnits(units: seq<Unit<Attrs>>) {
    Readable(units) && forall i | 0 <= i < |units| :: Sound([units[i].root])
  }

  predicate UnnestedUnits(pc: Word, units: seq<Unit<Attrs>>) {
    forall i | 0 <= i < |units| :: Unnested(pc, [units[i].root], false)
  }

  function ScopedUnits(pc: Word, units: seq<Unit<Attrs>>): seq<bool> {
    if units == [] then [] else Scoped(pc, [units[0].root], false) + ScopedUnits(pc, units[1..])
  }

  function ShownUnits(pc: Word, units: seq<Unit<Attrs>>): seq<bool> {
    if units == [] then [] else Shown(pc, [units[0].root], false, false) + ShownUnits(pc, units[1..])
  }

  lemma {:induction false} UnitsWalk(pc: Word, units: seq<Unit<Attrs>>, f: Findings)
    requires SoundUnits(units)
    ensures AllVisits(UnitsPreorder(units))
    ensures Flags(pc, UnitsPreorder(units), f) == ShownUnits(pc, units)
    ensures UnnestedUnits(pc, units) ==> ShownUnits(pc, units) == ScopedUnits(pc, units)
  {
    if units != [] {
      var forest := [units[0].root];
      var w := Preorder(forest, 0);
      TrackingIsShown(pc, forest, 0, false, false, f);
      UnitsWalk(pc, units[1..], TrackEnd(pc, w, f));
      FlagsAppend(pc, w, UnitsPreorder(units[1..]), f);
      if UnnestedUnits(pc, units) {
        UnnestedShown(pc, forest, false, false);
      }
    }
  }

  /**
   * For any units: sd_runtime_variable returns the first match that counts as in scope,
   * if there is one, and otherwise the first match anywhere.
   */
  lemma RuntimeVariableShown(units: seq<Unit<Attrs>>, pc: Word, varName: string)
    requires SoundUnits(units)
    ensures AllVisits(UnitsPreorder(units)) && |ShownUnits(pc, units)| == |UnitsPreorder(units)|
    ensures LookUp(units, units, pc, varName) ==
            var walk := UnitsPreorder(units);
            var inScope := FirstMatch(walk, ShownUnits(pc, units), varName);
            if inScope.Some? then inScope else FirstMatch(walk, All(|walk|), varName)
  {
    var f0 := Findings(false, 0, None);
    var walk := UnitsPreorder(units);
    UnitsWalk(pc, units, f0);
    SearchUnitsIsScan(units, FindVariable(pc, varName, true), f0);
    ScanFindsScoped(pc, varName, walk, f0);
    var f1 := Scan(walk, FindVariable(pc, varName, true), f0).1;
    SearchUnitsIsScan(units, FindVariable(pc, varName, false), f1);
    ScanFindsAny(pc, varName, walk, f1);
  }

  /** What the search looks for: a variable or parameter of the name, with a location that can be used. */
  ghost predicate Named(attrs: Attrs, varName: string) {
    && (attrs.tag == Variable || attrs.tag == FormalParameter)
    && attrs.name == Some(varName) && attrs.hasLocation && attrs.usable
  }

  lemma MatchesExactly(attrs: Attrs, varName: string)
    ensures attrs.Matches(varName) <==> Named(attrs, varName)
    ensures Named(attrs, varName) ==> !attrs.Ranged()
  {
  }

  /** Entry i is the first of the name; or, for inFunction, the first of those in a function around pc. */
  ghost predicate FirstNamed(walk: Walk, pc: Word, varName: string, inFunction: bool, i: nat)
    requires AllVisits(walk)
  {
    && i < |walk| && Named(walk[i].attrs, varName) && (inFunction ==> InFunction(walk, pc, i))
    && forall k | 0 <= k < i :: Named(walk[k].attrs, varName) ==> inFunction && !InFunction(walk, pc, k)
  }

  lemma ScopedAppend(w1: Walk, c1: seq<bool>, w2: Walk, c2: seq<bool>, pc: Word)
    requires ScopedRight(w1, c1, pc, false, 0) && ScopedRight(w2, c2, pc, false, 0)
    ensures ScopedRight(w1 + w2, c1 + c2, pc, false, 0)
  {
    hide InFunction;
    forall i | 0 <= i < |w1 + w2|
      ensures ScopedAt(w1 + w2, c1 + c2, pc, false, i)
    {
      if i < |w1| {
        InFunctionBefore(w1, w2, pc, i);
        assert ScopedAt(w1, c1, pc, false, i);
      } else {
        InFunctionBehind(w1, w2, pc, 0, i - |w1|);
        assert ScopedAt(w2, c2, pc, false, i - |w1|);
      }
    }
  }

  lemma {:induction false} UnitsScoped(pc: Word, units: seq<Unit<Attrs>>)
    requires SoundUnits(units)
    ensures ScopedRight(UnitsPreorder(units), ScopedUnits(pc, units), pc, false, 0)
  {
    if units != [] {
      ScopedIsAncestry(pc, [units[0].root], 0, false);
      UnitsScoped(pc, units[1..]);
      ScopedAppend(Preorder([units[0].root], 0), Scoped(pc, [units[0].root], false),
                   UnitsPreorder(units[1..]), ScopedUnits(pc, units[1..]), pc);
    }
  }

  lemma {:induction false} FirstMatchIsNamed(walk: Walk, flags: seq<bool>, pc: Word, varName: string, inFunction: bool)
    requires AllVisits(walk) && |flags| == |walk|
    requires forall i | 0 <= i < |walk| && Named(walk[i].attrs, varName) ::
               flags[i] <==> (inFunction ==> InFunction(walk, pc, i))
    ensures match FirstMatch(walk, flags, varName)
            case Some(v) => exists i: nat :: FirstNamed(walk, pc, varName, inFunction, i) && walk[i].attrs.variable == v
            case None => forall i: nat :: !FirstNamed(walk, pc, varName, inFunction, i)
  {
    forall i | 0 <= i < |walk|
      ensures walk[i].attrs.Matches(varName) <==> Named(walk[i].attrs, varName)
    {
      MatchesExactly(walk[i].attrs, varName);
    }
    var i := FirstIndex(walk, flags, varName);
    if i < |walk| {
      assert FirstNamed(walk, pc, varName, inFunction, i);
    }
  }

  lemma FirstNamedUnique(walk: Walk, pc: Word, varName: string, inFunction: bool, i: nat, j: nat)
    requires AllVisits(walk)
    requires FirstNamed(walk, pc, varName, inFunction, i) && FirstNamed(walk, pc, varName, inFunction, j)
    ensures i == j
  {
  }

  /**
   * sd_runtime_variable returns the first match in preorder below a subprogram that
   * holds pc, if there is one, and otherwise the first match anywhere.
   */
  lemma RuntimeVariableFound(units: seq<Unit<Attrs>>, pc: Word, varName: string)
    requires SoundUnits(units) && UnnestedUnits(pc, units)
    ensures AllVisits(UnitsPreorder(units))
    ensures var walk, found := UnitsPreorder(units), LookUp(units, units, pc, varName);
            && (forall i: nat | FirstNamed(walk, pc, varName, true, i) :: found == Some(walk[i].attrs.variable))
            && ((forall i: nat :: !FirstNamed(walk, pc, varName, true, i)) ==>
                  && (forall i: nat | FirstNamed(walk, pc, varName, false, i) :: found == Some(walk[i].attrs.variable))
                  && ((forall i: nat :: !FirstNamed(walk, pc, varName, false, i)) ==> found == None))
  {
    var walk, scoped := UnitsPreorder(units), ScopedUnits(pc, units);
    RuntimeVariableShown(units, pc, varName);
    UnitsWalk(pc, units, Findings(false, 0, None));
    UnitsScoped(pc, units);
    forall i | 0 <= i < |walk| && Named(walk[i].attrs, varName)
      ensures scoped[i] <==> InFunction(walk, pc, i)
    {
      assert ScopedAt(walk, scoped, pc, false, i);
    }
    FirstMatchIsNamed(walk, scoped, pc, varName, true);
    FirstMatchIsNamed(walk, All(|walk|), pc, varName, false);
    forall i: nat, j: nat, b | FirstNamed(walk, pc, varName, b, i) && FirstNamed(walk, pc, varName, b, j)
      ensures i == j
    {
      FirstNamedUnique(walk, pc, varName, b, i, j);
    }
  }

  /** The entries directly below the root of their unit: where C has its global variables. */
  function AtUnitLevel(walk: Walk): seq<bool>
    requires AllVisits(walk)
  {
    seq(|walk|, i requires 0 <= i < |walk| => walk[i].level <= 1)
  }

  /**
   * Without a match in scope, the entry found is the first global variable of the name
   * exactly when no deeper entry of that name comes before it.
   */
  lemma GlobalVariableFound(units: seq<Unit<Attrs>>, pc: Word, varName: string)
    requires SoundUnits(units)
    ensures AllVisits(UnitsPreorder(units)) && |ShownUnits(pc, units)| == |UnitsPreorder(units)|
    ensures var walk := UnitsPreorder(units);
            var found, global := FirstIndex(walk, All(|walk|), varName), FirstIndex(walk, AtUnitLevel(walk), varName);
            FirstMatch(walk, ShownUnits(pc, units), varName).None? ==>
              && LookUp(units, units, pc, varName) ==
                  (if found < |walk| then Some(walk[found].attrs.variable) else None)
              && (found == global <==> forall k | 0 <= k < global && walk[k].level > 1 ::
                  !walk[k].attrs.Matches(varName))
  {
    RuntimeVariableShown(units, pc, varName);
  }

  const NO_VARIABLE: Attrs := Attrs(OtherTag, None, false, None, false, VarAttr(0, 0, None, 0))

  function FunctionDie(low: Word, high: Word, children: seq<Die<Attrs>>): Die<Attrs> {
    Die(NO_VARIABLE.(tag := Subprogram, range := Some(PcRange(low, high))), NoFault, children)
  }

  /** A variable x that is declared in the given line. */
  function VariableDie(line: nat): Die<Attrs> {
    Die(Attrs(Variable, None, true, Some("x"), true, VarAttr(1, 1, None, line)), NoFault, [])
  }

  /** A function over [50, 60] with a local x in line 1, in front of a global x in line 2. */
  function LocalExample(): seq<Unit<Attrs>> {
    [Unit(false, false, Die(NO_VARIABLE, NoFault, [FunctionDie(50, 60, [VariableDie(1)]), VariableDie(2)]))]
  }

  const LOCAL_WALK: Walk :=
    [Visit(NO_VARIABLE, 0), Visit(FunctionDie(50, 60, []).attrs, 1), Visit(VariableDie(1).attrs, 2),
        Visit(VariableDie(2).attrs, 1)]

  lemma LocalExampleWalk()
    ensures UnitsPreorder(LocalExample()) == LOCAL_WALK
  {
    var function_, global := FunctionDie(50, 60, [VariableDie(1)]), VariableDie(2);
    assert Preorder([global], 1) == [LOCAL_WALK[3]];
    assert Preorder([VariableDie(1)], 2) == [LOCAL_WALK[2]];
    assert [function_, global][1..] == [global];
    assert Preorder([function_, global], 1) == [LOCAL_WALK[1], LOCAL_WALK[2], LOCAL_WALK[3]];
    assert Preorder([LocalExample()[0].root], 0) == LOCAL_WALK;
  }

  lemma LocalExampleShown()
    ensures ShownUnits(15, LocalExample()) == [false, false, false, false]
  {
    var function_, global := FunctionDie(50, 60, [VariableDie(1)]), VariableDie(2);
    assert Shown(15, [VariableDie(1)], false, true) == [false] && Shown(15, [global], false, true) == [false];
    assert [function_, global][1..] == [global];
    assert Shown(15, [function_, global], false, false) == [false, false, false];
    assert Shown(15, [LocalExample()[0].root], false, false) == [false, false, false, false];
  }

  lemma LeafSound(pc: Word, d: Die<Attrs>, inside: bool)
    requires d.children == [] && d.fault == NoFault && !d.attrs.Ranged()
    ensures Sound([d]) && Unnested(pc, [d], inside)
  {
    assert [d][1..] == [] && Sound([]) && Unnested(pc, [], inside);
  }

  lemma LocalExampleSound()
    ensures SoundUnits(LocalExample()) && UnnestedUnits(15, LocalExample())
  {
    var function_, global := FunctionDie(50, 60, [VariableDie(1)]), VariableDie(2);
    assert [function_, global][1..] == [global];
    LeafSound(15, VariableDie(1), false);
    LeafSound(15, global, false);
    assert Sound([function_, global]) && Unnested(15, [function_, global], false);
    var root := LocalExample()[0].root;
    assert [root][1..] == [] && Sound([]) && Unnested(15, [], false);
    assert Sound([root]) && Unnested(15, [root], false);
  }

  /** Outside of that function, a search for x finds its local. */
  lemma LocalFoundOutside()
    ensures SoundUnits(LocalExample()) && UnnestedUnits(15, LocalExample())
    ensures LookUp(LocalExample(), LocalExample(), 15, "x") == Some(VariableDie(1).attrs.variable)
  {
    hide LookUp, UnitsPreorder, ShownUnits, SoundUnits, UnnestedUnits;
    LocalExampleWalk();
    LocalExampleShown();
    LocalExampleSound();
    RuntimeVariableShown(LocalExample(), 15, "x");
    assert All(4)[2] && LOCAL_WALK[2].attrs.Matches("x");
    assert FirstIndex(LOCAL_WALK, All(4), "x") == 2;
  }

  /** A subprogram over [10, 20] with a nested one over [50, 60] in front of its variable x. */
  function NestedExample(): seq<Die<Attrs>> {
    [FunctionDie(10, 20, [FunctionDie(50, 60, []), VariableDie(1)])]
  }

  /**
   * With nesting, ancestry is lost: behind a nested ranged subprogram that does not hold
   * pc, a variable of the enclosing active one no longer counts as in scope.
   */
  lemma NestingHidesScope()
    ensures var forest, walk := NestedExample(), Preorder(NestedExample(), 0);
            && Sound(forest) && !Unnested(15, forest, false)
            && AllVisits(walk)
            && Scoped(15, forest, false) == [true, false, true]
            && Flags(15, walk, Findings(false, 0, None)) == [true, false, false]
            && walk[2].attrs.Matches("x")
  {
  }
}
