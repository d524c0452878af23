/** The search through the tree of debugging information entries (section 2.3 of DWARF 5). */
module DieSearch {
  import opened Words

  /** The libdwarf result codes. */
  datatype DwarfResult = DW_DLV_OK | DW_DLV_NO_ENTRY | DW_DLV_ERROR

  /** Which of libdwarf's navigation calls from an entry reports an error. */
  datatype Fault = NoFault | ChildFault | SiblingFault

  datatype Die<A> = Die(attrs: A, fault: Fault, children: seq<Die<A>>)

  /** A stateful search callback: entry, level, findings so far. */
  type Callback<!A, !S> = (A, nat, S) -> (bool, S)

  // ----- the reference: a stopped fold over the preorder walk

  /** A step of the walk: an entry with its level, or a navigation error. */
  datatype Event<A> = Visit(attrs: A, level: nat) | Broken

  /** The entries of sibling trees in preorder. */
  function Preorder<A>(forest: seq<Die<A>>, level: nat): seq<Event<A>> {
    if forest == [] then []
    else
      var d := forest[0];
      [Visit(d.attrs, level)]
      + (if d.fault == ChildFault then [Broken] else Preorder(d.children, level + 1))
      + (if d.fault == SiblingFault then [Broken] else [])
      + Preorder(forest[1..], level)
  }

  /** Run a callback over a walk until it reports a hit or the walk breaks. */
  function Scan<A, S>(walk: seq<Event<A>>, callback: Callback<A, S>, s: S): (DwarfResult, S) {
    if walk == [] then (DW_DLV_NO_ENTRY, s)
    else match walk[0]
         case Broken => (DW_DLV_ERROR, s)
         case Visit(attrs, level) =>
           var (hit, s') := callback(attrs, level, s);
           if hit then (DW_DLV_OK, s') else Scan(walk[1..], callback, s')
  }

  /** How often Scan calls its callback. */
  function Calls<A, S>(walk: seq<Event<A>>, callback: Callback<A, S>, s: S): nat {
    if walk == [] || walk[0].Broken? then 0
    else
      var (hit, s') := callback(walk[0].attrs, walk[0].level, s);
      1 + if hit then 0 else Calls(walk[1..], callback, s')
  }

  /** A callback that also records what it is called with. */
  function Logging<A, S>(callback: Callback<A, S>): Callback<A, (S, seq<Event<A>>)> {
    (attrs: A, level: nat, s: (S, seq<Event<A>>)) =>
      var (hit, s') := callback(attrs, level, s.0);
      (hit, (s', s.1 + [Visit(attrs, level)]))
  }

  /** The findings before entry i of the walk, when no call before it hits. */
  function Before<A, S>(walk: seq<Event<A>>, callback: Callback<A, S>, s: S, i: nat): S
    requires i <= |walk| && forall k | 0 <= k < i :: walk[k].Visit?
  {
    if i == 0 then s else Before(walk[1..], callback, callback(walk[0].attrs, walk[0].level, s).1, i - 1)
  }

  predicate HitAt<A, S>(walk: seq<Event<A>>, callback: Callback<A, S>, s: S, i: nat)
    requires i < |walk| && forall k | 0 <= k <= i :: walk[k].Visit?
  {
    callback(walk[i].attrs, walk[i].level, Before(walk, callback, s, i)).0
  }

  /**
   * Scan calls the callback on a prefix of the walk, once per entry and in order. The
   * prefix ends with the first hit, or before the first error, or is the whole walk.
   */
  lemma {:induction false} ScanCallsPrefix<A, S>(walk: seq<Event<A>>, callback: Callback<A, S>, s: S,
                                                 log: seq<Event<A>>)
    ensures var k := Calls(walk, callback, s);
            var (res, s') := Scan(walk, callback, s);
            && k <= |walk|
            && (forall i | 0 <= i < k :: walk[i].Visit?)
            && Scan(walk, Logging(callback), (s, log)) == (res, (s', log + walk[..k]))
            && s' == Before(walk, callback, s, k)
            && (forall i: nat | i + 1 < k :: !HitAt(walk, callback, s, i))
            && match res
               case DW_DLV_OK => k > 0 && HitAt(walk, callback, s, k - 1)
               case DW_DLV_ERROR => (k > 0 ==> !HitAt(walk, callback, s, k - 1)) && k < |walk| && walk[k].Broken?
               case DW_DLV_NO_ENTRY => (k > 0 ==> !HitAt(walk, callback, s, k - 1)) && k == |walk|
  {
    if walk != [] && walk[0].Visit? {
      var (hit, s') := callback(walk[0].attrs, walk[0].level, s);
      if hit {
        assert walk[..1] == [walk[0]];
      } else {
        ScanCallsPrefix(walk[1..], callback, s', log + [walk[0]]);
        var k := Calls(walk[1..], callback, s');
        assert log + [walk[0]] + walk[1..][..k] == log + walk[..k + 1];
        assert forall i | 0 < i < k + 1 :: walk[i] == walk[1..][i - 1];
        forall i: nat | i < k + 1
          ensures HitAt(walk, callback, s, i) == (i > 0 && HitAt(walk[1..], callback, s', i - 1))
        {
        }
      }
    } else {
      assert log + walk[..0] == log;
    }
  }

  lemma {:induction false} ScanAppend<A, S>(w1: seq<Event<A>>, w2: seq<Event<A>>, callback: Callback<A, S>, s: S)
    ensures Scan(w1 + w2, callback, s) ==
            var (res, s') := Scan(w1, callback, s);
            if res.DW_DLV_NO_ENTRY? then Scan(w2, callback, s') else (res, s')
  {
    if w1 == [] {
      assert w1 + w2 == w2;
    } else {
      assert (w1 + w2)[1..] == w1[1..] + w2;
      if w1[0].Visit? {
        ScanAppend(w1[1..], w2, callback, callback(w1[0].attrs, w1[0].level, s).1);
      }
    }
  }

  // ----- sd_search_dwarf_die

  /** dwarf_child */
  function FirstChild<A>(d: Die<A>): DwarfResult {
    if d.fault == ChildFault then DW_DLV_ERROR
    else if d.children == [] then DW_DLV_NO_ENTRY else DW_DLV_OK
  }

  /** dwarf_siblingof_b, from entry i of a row of siblings. */
  function NextSibling<A>(siblings: seq<Die<A>>, i: nat): DwarfResult
    requires i < |siblings|
  {
    if siblings[i].fault == SiblingFault then DW_DLV_ERROR
    else if i + 1 == |siblings| then DW_DLV_NO_ENTRY else DW_DLV_OK
  }

  /** The walk that is left once entry i itself has been visited. */
  function Rest<A>(siblings: seq<Die<A>>, i: nat, level: nat): seq<Event<A>>
    requires i < |siblings|
  {
    (if siblings[i].fault == ChildFault then [Broken] else Preorder(siblings[i].children, level + 1))
    + AfterChildren(siblings, i, level)
  }

  function AfterChildren<A>(siblings: seq<Die<A>>, i: nat, level: nat): seq<Event<A>>
    requires i < |siblings|
  {
    (if siblings[i].fault == SiblingFault then [Broken] else []) + Preorder(siblings[i + 1..], level)
  }

  lemma PreorderFrom<A>(siblings: seq<Die<A>>, i: nat, level: nat)
    requires i < |siblings|
    ensures Preorder(siblings[i..], level) == [Visit(siblings[i].attrs, level)] + Rest(siblings, i, level)
  {
  }

  /**
   * sd_search_dwarf_die, on the first of a row of siblings: recursion on first children,
   * iteration over siblings.
   */
  method SearchDie<A, S>(siblings: seq<Die<A>>, level: nat, callback: Callback<A, S>, init: S)
    returns (res: DwarfResult, s: S)
    requires siblings != []
    ensures (res, s) == Scan(Preorder(siblings, level), callback, init)
    decreases siblings
  {
    assert siblings[0..] == siblings;
    PreorderFrom(siblings, 0, level);
    var (inDieFound, s1) := callback(siblings[0].attrs, level, init);
    s := s1;
    if inDieFound {
      return DW_DLV_OK, s;
    }
    var cur := 0;
    while true
      invariant cur < |siblings|
      invariant Scan(Preorder(siblings, level), callback, init) == Scan(Rest(siblings, cur, level), callback, s)
      decreases |siblings| - cur
    {
      ghost var s0 := s;
      if siblings[cur].fault != ChildFault {
        ScanAppend(Preorder(siblings[cur].children, level + 1), AfterChildren(siblings, cur, level), callback, s);
      }
      var child := FirstChild(siblings[cur]);
      if child.DW_DLV_ERROR? {
        return DW_DLV_ERROR, s;
      } else if child.DW_DLV_OK? {
        res, s := SearchDie(siblings[cur].children, level + 1, callback, s);
        if !res.DW_DLV_NO_ENTRY? {
          return;
        }
      }
      assert Scan(Preorder(siblings, level), callback, init) == Scan(AfterChildren(siblings, cur, level), callback, s);
      var sibling := NextSibling(siblings, cur);
      if !sibling.DW_DLV_OK? {
        return sibling, s;
      }
      PreorderFrom(siblings, cur + 1, level);
      assert AfterChildren(siblings, cur, level) ==
          [Visit(siblings[cur + 1].attrs, level)] + Rest(siblings, cur + 1, level);
      cur := cur + 1;
      var (sibDieFound, s2) := callback(siblings[cur].attrs, level, s);
      s := s2;
      if sibDieFound {
        return DW_DLV_OK, s;
      }
    }
  }

  // ----- sd_search_dwarf_dbg

  /** A compilation unit: reading its header or its root entry may fail. */
  datatype Unit<A> = Unit(headerFails: bool, rootFails: bool, root: Die<A>)

  /** What a search over units amounts to, and whether a broken header is met behind a hit. */
  function SearchUnits<A, S>(units: seq<Unit<A>>, callback: Callback<A, S>, s: S): (DwarfResult, S) {
    if units == [] then (DW_DLV_NO_ENTRY, s)
    else if units[0].headerFails || units[0].rootFails then (DW_DLV_ERROR, s)
    else
      var (res, s') := Scan(Preorder([units[0].root], 0), callback, s);
      match res
      case DW_DLV_NO_ENTRY => SearchUnits(units[1..], callback, s')
      case DW_DLV_ERROR => (DW_DLV_ERROR, s')
      case DW_DLV_OK => (if HeadersRead(units[1..]) then DW_DLV_OK else DW_DLV_ERROR, s')
  }

  predicate HeadersRead<A>(units: seq<Unit<A>>) {
    forall i | 0 <= i < |units| :: !units[i].headerFails
  }

  predicate Readable<A>(units: seq<Unit<A>>) {
    forall i | 0 <= i < |units| :: !units[i].headerFails && !units[i].rootFails
  }

  /** The walk over all entries of all units. */
  function UnitsPreorder<A>(units: seq<Unit<A>>): seq<Event<A>> {
    if units == [] then [] else Preorder([units[0].root], 0) + UnitsPreorder(units[1..])
  }

  /** With readable units the search is one scan over all their entries. */
  lemma {:induction false} SearchUnitsIsScan<A, S>(units: seq<Unit<A>>, callback: Callback<A, S>, s: S)
    requires Readable(units)
    ensures SearchUnits(units, callback, s) == Scan(UnitsPreorder(units), callback, s)
  {
    if units != [] {
      var w := Preorder([units[0].root], 0);
      ScanAppend(w, UnitsPreorder(units[1..]), callback, s);
      SearchUnitsIsScan(units[1..], callback, Scan(w, callback, s).1);
    }
  }

  lemma {:induction false} ReadableHeaders<A>(units: seq<Unit<A>>, k: nat)
    requires k <= |units| && Readable(units[..k])
    ensures HeadersRead(units) <==> HeadersRead(units[k..])
  {
    assert forall i | 0 <= i < k :: units[i] == units[..k][i];
    assert forall i | k <= i < |units| :: units[i] == units[k..][i - k];
  }

  /**
   * A unit that cannot be read ends a search that has not hit before with an error; behind
   * a hit only the headers are read, and the search is an error if one of them is broken.
   */
  lemma {:induction false} SearchUnitsBroken<A, S>(units: seq<Unit<A>>, k: nat, callback: Callback<A, S>, s: S)
    requires k < |units| && Readable(units[..k]) && (units[k].headerFails || units[k].rootFails)
    ensures var (res, s') := Scan(UnitsPreorder(units[..k]), callback, s);
            SearchUnits(units, callback, s) ==
            (if res.DW_DLV_OK? && HeadersRead(units) then DW_DLV_OK else DW_DLV_ERROR, s')
  {
    if k == 0 {
      assert units[..0] == [];
    } else {
      assert units[..k][0] == units[0] && units[..k][1..] == units[1..][..k - 1];
      var w := Preorder([units[0].root], 0);
      var s1 := Scan(w, callback, s).1;
      SearchUnitsBroken(units[1..], k - 1, callback, s1);
      ScanAppend(w, UnitsPreorder(units[1..][..k - 1]), callback, s);
      ReadableHeaders(units, 1);
    }
  }

  /** libdwarf's handle, with its two cursors over unit headers. */
  class DwarfDebug<A> {
    const info: seq<Unit<A>>
    const types: seq<Unit<A>>
    var infoNext: nat
    var typesNext: nat

    constructor (info: seq<Unit<A>>, types: seq<Unit<A>>)
      ensures this.info == info && this.types == types && Rewound()
    {
      this.info, this.types, infoNext, typesNext := info, types, 0, 0;
    }

    ghost predicate Valid()
      reads this
    {
      infoNext <= |info| && typesNext <= |types|
    }

    /** Both cursors are at their first unit. */
    predicate Rewound()
      reads this
    {
      infoNext == 0 && typesNext == 0
    }

    /** The units the next search will read. */
    function Ahead(): seq<Unit<A>>
      requires Valid()
      reads this
    {
      info[infoNext..] + types[typesNext..]
    }

    /** dwarf_next_cu_header_d: behind the last unit the cursor goes back to the first. */
    method NextHeader(isInfo: bool) returns (res: DwarfResult, unit: Option<Unit<A>>)
      requires Valid()
      modifies this
      ensures Valid()
      ensures var units, next := if isInfo then info else types, old(if isInfo then infoNext else typesNext);
              && (if isInfo then typesNext == old(typesNext) else infoNext == old(infoNext))
              && var next' := if isInfo then infoNext else typesNext;
                 if next == |units| then res.DW_DLV_NO_ENTRY? && next' == 0
                 else if units[next].headerFails then res.DW_DLV_ERROR? && next' == next
                 else res.DW_DLV_OK? && next' == next + 1 && unit == Some(units[next])
    {
      var units, next := if isInfo then info else types, if isInfo then infoNext else typesNext;
      var next' := next;
      unit := None;
      if next == |units| {
        res, next' := DW_DLV_NO_ENTRY, 0;
      } else if units[next].headerFails {
        res := DW_DLV_ERROR;
      } else {
        res, next', unit := DW_DLV_OK, next + 1, Some(units[next]);
      }
      if isInfo { infoNext := next'; } else { typesNext := next'; }
    }

    /** The units left to read in the middle of a search. */
    function Left(isInfo: bool): seq<Unit<A>>
      requires Valid()
      reads this
    {
      (if isInfo then info[infoNext..] else []) + types[typesNext..]
    }

    /** sd_search_dwarf_dbg: after OK or NO_ENTRY the handle is ready for the next search. */
    method SearchDbg<S>(callback: Callback<A, S>, init: S) returns (res: DwarfResult, s: S)
      requires Valid()
      modifies this
      ensures Valid()
      ensures (res, s) == old(SearchUnits(Ahead(), callback, init))
      ensures !res.DW_DLV_ERROR? ==> Rewound()
    {
      s := init;
      var isInfo, searchFinished := true, false;
      while true
        invariant Valid()
        invariant !isInfo ==> infoNext == 0
        invariant old(SearchUnits(Ahead(), callback, init)) ==
                  if searchFinished then (if HeadersRead(Left(isInfo)) then DW_DLV_OK else DW_DLV_ERROR, s)
                  else SearchUnits(Left(isInfo), callback, s)
        decreases isInfo, |Left(isInfo)|
      {
        ghost var left := Left(isInfo);
        var header, unit := NextHeader(isInfo);
        if header.DW_DLV_ERROR? {
          assert left[0].headerFails;
          return DW_DLV_ERROR, s;
        } else if header.DW_DLV_NO_ENTRY? {
          if isInfo {
            isInfo := false;
            assert Left(isInfo) == left;
            continue;
          }
          assert left == [];
          return if searchFinished then DW_DLV_OK else DW_DLV_NO_ENTRY, s;
        }
        assert left[0] == unit.value && left[1..] == Left(isInfo);
        if searchFinished {
          assert HeadersRead(left) <==> HeadersRead(Left(isInfo));
          continue;
        }
        if unit.value.rootFails {
          return DW_DLV_ERROR, s;
        }
        res, s := SearchDie([unit.value.root], 0, callback, s);
        if res.DW_DLV_ERROR? {
          return;
        } else if res.DW_DLV_OK? {
          searchFinished := true;
        }
      }
    }
  }
}
