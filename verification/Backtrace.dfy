/** The frame-pointer walk behind `backtrace`, and the linked list of frames it builds. */
module Backtrace {
  import opened Words

  datatype Location = Location(pc: Word, framePointer: Word)

  /** Reads of tracee memory at their addresses; None when a read fails. */
  type Reader = Word -> Option<Word>

  /** The walk fails at a read, or ends with the frames visited, innermost first. */
  datatype Walk = Failed | Frames(frames: seq<Location>)

  /** The walk from a frame on; None when more than `links` saved frame pointers are followed. */
  function WalkFrom(read: Reader, pc: Word, fp: Word, links: nat): Option<Walk>
    decreases links
  {
    if fp == 0 then Some(Frames([Location(pc, fp)]))
    else if links == 0 then None
    else match (read(Add(fp, 8)), read(fp))
         case (Some(returnAddress), Some(saved)) =>
           (match WalkFrom(read, returnAddress, saved, links - 1)
            case Some(Frames(rest)) => Some(Frames([Location(pc, fp)] + rest))
            case other => other)
         case _ => Some(Failed)
  }

  /**
   * The frames follow the chain of saved frame pointers: each pc is the return address
   * above the frame before, and exactly the last frame pointer is 0.
   */
  lemma {:induction false} WalkFollowsChain(read: Reader, pc: Word, fp: Word, links: nat)
    requires WalkFrom(read, pc, fp, links).Some? && WalkFrom(read, pc, fp, links).value.Frames?
    ensures var frames := WalkFrom(read, pc, fp, links).value.frames;
            && 0 < |frames| <= links + 1
            && frames[0] == Location(pc, fp)
            && (forall i | 0 <= i < |frames| :: frames[i].framePointer == 0 <==> i == |frames| - 1)
            && (forall i | 0 <= i < |frames| - 1 ::
                  && read(Add(frames[i].framePointer, 8)) == Some(frames[i + 1].pc)
                  && read(frames[i].framePointer) == Some(frames[i + 1].framePointer))
    decreases links
  {
    if fp != 0 {
      var returnAddress, saved := read(Add(fp, 8)).value, read(fp).value;
      WalkFollowsChain(read, returnAddress, saved, links - 1);
      var frames, rest := WalkFrom(read, pc, fp, links).value.frames,
          WalkFrom(read, returnAddress, saved, links - 1).value.frames;
      assert frames == [Location(pc, fp)] + rest;
      forall i | 0 <= i < |frames| - 1
        ensures read(Add(frames[i].framePointer, 8)) == Some(frames[i + 1].pc)
        ensures read(frames[i].framePointer) == Some(frames[i + 1].framePointer)
      {
        if i > 0 {
          assert frames[i] == rest[i - 1] && frames[i + 1] == rest[i - 1 + 1];
        }
      }
    }
  }

  // ----- when the walk ends

  /** The frame pointer after n links, if all reads up to there succeed. */
  function Link(read: Reader, fp: Word, n: nat): Option<Word>
    decreases n
  {
    if n == 0 then Some(fp)
    else match (read(Add(fp, 8)), read(fp))
         case (Some(_), Some(saved)) => Link(read, saved, n - 1)
         case _ => None
  }

  /** After n links the chain is at 0 or at a frame that cannot be read. */
  predicate EndsAt(read: Reader, fp: Word, n: nat) {
    Link(read, fp, n).None? || Link(read, fp, n) == Some(0)
  }

  /** Following enough links suffices exactly when the chain of saved frame pointers ends. */
  lemma WalkEnds(read: Reader, pc: Word, fp: Word)
    ensures (exists links: nat :: WalkFrom(read, pc, fp, links).Some?) <==> exists n: nat :: EndsAt(read, fp, n)
  {
    if links: nat :| WalkFrom(read, pc, fp, links).Some? {
      WalkFindsEnd(read, pc, fp, links);
    }
    if n: nat :| EndsAt(read, fp, n) {
      EndSuffices(read, pc, fp, n);
    }
  }

  lemma {:induction false} WalkFindsEnd(read: Reader, pc: Word, fp: Word, links: nat)
    requires WalkFrom(read, pc, fp, links).Some?
    ensures exists n: nat :: EndsAt(read, fp, n)
    decreases links
  {
    if fp == 0 {
      assert EndsAt(read, fp, 0);
    } else if read(Add(fp, 8)).None? || read(fp).None? {
      assert EndsAt(read, fp, 1);
    } else {
      var saved := read(fp).value;
      WalkFindsEnd(read, read(Add(fp, 8)).value, saved, links - 1);
      var n: nat :| EndsAt(read, saved, n);
      assert EndsAt(read, fp, n + 1);
    }
  }

  lemma {:induction false} EndSuffices(read: Reader, pc: Word, fp: Word, n: nat)
    requires EndsAt(read, fp, n)
    ensures WalkFrom(read, pc, fp, n + 1).Some?
    decreases n
  {
    if fp != 0 && read(Add(fp, 8)).Some? && read(fp).Some? {
      EndSuffices(read, read(Add(fp, 8)).value, read(fp).value, n - 1);
    }
  }

  /** The frame behind n links cannot be read, and 0 is not met before. */
  ghost predicate UnreadableAt(read: Reader, fp: Word, n: nat) {
    Link(read, fp, n).None? && forall k | 0 <= k < n :: Link(read, fp, k) != Some(0)
  }

  /** The chain comes to 0 after n links, and not before. */
  ghost predicate ZeroAt(read: Reader, fp: Word, n: nat) {
    Link(read, fp, n) == Some(0) && forall k | 0 <= k < n :: Link(read, fp, k) != Some(0)
  }

  /**
   * The walk fails exactly when the chain comes to a frame that cannot be read, and
   * otherwise has a frame for every link and one more.
   */
  lemma {:induction false} WalkResult(read: Reader, pc: Word, fp: Word, links: nat)
    requires WalkFrom(read, pc, fp, links).Some?
    ensures match WalkFrom(read, pc, fp, links).value
            case Failed => exists n: nat :: UnreadableAt(read, fp, n)
            case Frames(frames) => frames != [] && ZeroAt(read, fp, |frames| - 1)
    decreases links
  {
    if fp == 0 {
      assert Link(read, fp, 0) == Some(0);
    } else if read(Add(fp, 8)).None? || read(fp).None? {
      assert Link(read, fp, 0) == Some(fp);
      assert UnreadableAt(read, fp, 1);
    } else {
      var saved := read(fp).value;
      var walk := WalkFrom(read, read(Add(fp, 8)).value, saved, links - 1).value;
      WalkResult(read, read(Add(fp, 8)).value, saved, links - 1);
      assert forall k: nat :: Link(read, fp, k + 1) == Link(read, saved, k);
      if walk.Failed? {
        var n: nat :| UnreadableAt(read, saved, n);
        assert forall k | 0 < k < n + 1 :: Link(read, fp, k) == Link(read, saved, k - 1);
        assert UnreadableAt(read, fp, n + 1);
      } else {
        assert forall k | 0 < k <= |walk.frames| :: Link(read, fp, k) == Link(read, saved, k - 1);
      }
    }
  }

  /** Between i and j links the chain goes round in a circle, and it does not meet 0. */
  ghost predicate Circle(read: Reader, fp: Word, i: nat, j: nat) {
    && i < j
    && Link(read, fp, i) == Link(read, fp, j)
    && forall k | 0 <= k <= j :: !EndsAt(read, fp, k)
  }

  lemma {:induction false} LinkAdd(read: Reader, fp: Word, m: nat, n: nat)
    requires Link(read, fp, m).Some?
    ensures Link(read, fp, m + n) == Link(read, Link(read, fp, m).value, n)
    decreases m
  {
    if m > 0 {
      LinkAdd(read, read(fp).value, m - 1, n);
    }
  }

  /** On a circle the chain never ends. */
  lemma {:induction false} CircleNeverEnds(read: Reader, fp: Word, i: nat, j: nat, n: nat)
    requires Circle(read, fp, i, j)
    ensures !EndsAt(read, fp, n)
    decreases n
  {
    if n > j {
      assert !EndsAt(read, fp, i) && !EndsAt(read, fp, j);
      LinkAdd(read, fp, i, n - j);
      LinkAdd(read, fp, j, n - j);
      CircleNeverEnds(read, fp, i, j, i + (n - j));
    }
  }

  lemma {:induction false} WordsSize(words: set<Word>, n: nat)
    requires forall w | w in words :: w < n
    ensures |words| <= n
    decreases n
  {
    if n == 0 {
      assert words == {};
    } else if last: Word :| last in words && last == n - 1 {
      WordsSize(words - {last}, n - 1);
    } else {
      WordsSize(words, n - 1);
    }
  }

  /** The frame pointer w is met behind fewer than n links. */
  ghost predicate MetBefore(read: Reader, fp: Word, n: nat, w: Word) {
    exists k: nat :: k < n && Link(read, fp, k) == Some(w)
  }

  /** The pointers behind fewer than n links, when the chain does not end or come back to one. */
  lemma {:induction false} DistinctLinks(read: Reader, fp: Word, n: nat) returns (words: set<Word>)
    requires forall k: nat :: !EndsAt(read, fp, k)
    requires forall i: nat, j: nat :: !Circle(read, fp, i, j)
    ensures |words| == n && forall w | w in words :: MetBefore(read, fp, n, w)
    decreases n
  {
    if n == 0 {
      words := {};
    } else {
      var before := DistinctLinks(read, fp, n - 1);
      assert !EndsAt(read, fp, n - 1);
      var last := Link(read, fp, n - 1).value;
      forall w | w in before
        ensures w != last
      {
        var k: nat :| k < n - 1 && Link(read, fp, k) == Some(w);
        assert !Circle(read, fp, k, n - 1);
      }
      words := before + {last};
      forall w | w in before
        ensures MetBefore(read, fp, n, w)
      {
        var k: nat :| k < n - 1 && Link(read, fp, k) == Some(w);
      }
    }
  }

  /** There are only so many words: a chain that does not end comes back to a frame pointer. */
  lemma {:induction false} EndlessIsCircle(read: Reader, fp: Word)
    requires forall k: nat :: !EndsAt(read, fp, k)
    ensures exists i: nat, j: nat :: Circle(read, fp, i, j)
  {
    if forall i: nat, j: nat :: !Circle(read, fp, i, j) {
      var words := DistinctLinks(read, fp, TWO64 + 1);
      WordsSize(words, TWO64);
    }
  }

  /** The walk ends exactly when the chain of saved frame pointers does not go round in a circle. */
  lemma WalkEndsExactly(read: Reader, pc: Word, fp: Word)
    ensures (exists links: nat :: WalkFrom(read, pc, fp, links).Some?) <==>
        !exists i: nat, j: nat :: Circle(read, fp, i, j)
  {
    WalkEnds(read, pc, fp);
    if i: nat, j: nat :| Circle(read, fp, i, j) {
      forall n: nat
        ensures !EndsAt(read, fp, n)
      {
        CircleNeverEnds(read, fp, i, j, n);
      }
    }
    if forall n: nat :: !EndsAt(read, fp, n) {
      EndlessIsCircle(read, fp);
    }
  }

  /** Two frames, each saved as the caller of the other: the walk never ends. */
  lemma CyclicChain(pc: Word, links: nat)
    ensures var read: Reader := a => if a == 0x100 then Some(0x200) else Some(0x100);
            WalkFrom(read, pc, 0x100, links).None?
  {
    var read: Reader := a => if a == 0x100 then Some(0x200) else Some(0x100);
    assert Link(read, 0x100, 1) == Link(read, 0x200, 0) == Some(0x200);
    assert Link(read, 0x100, 2) == Link(read, 0x200, 1) == Link(read, 0x100, 0) == Some(0x100);
    assert Circle(read, 0x100, 0, 2);
    WalkEndsExactly(read, pc, 0x100);
  }

  class CallFrame {
    var caller: CallFrame?
    var location: Location

    /** init_call_frame */
    constructor (caller: CallFrame?, location: Location)
      ensures this.caller == caller && this.location == location
    {
      this.caller, this.location := caller, location;
    }
  }

  /** The node at position i, or null behind the last one. */
  ghost function NodeAt(nodes: seq<CallFrame>, i: nat): CallFrame? {
    if i < |nodes| then nodes[i] else null
  }

  /** A null-terminated list of distinct frames. */
  ghost predicate IsList(head: CallFrame?, nodes: seq<CallFrame>)
    reads nodes
  {
    && head == NodeAt(nodes, 0)
    && (forall i | 0 <= i < |nodes| :: nodes[i].caller == NodeAt(nodes, i + 1))
    && (forall i, j | 0 <= i < j < |nodes| :: nodes[i] != nodes[j])
  }

  /** The list holds the given frames in reverse: the outermost first. */
  ghost predicate HoldsReversed(nodes: seq<CallFrame>, frames: seq<Location>)
    reads nodes
  {
    |nodes| == |frames| && forall i | 0 <= i < |nodes| :: nodes[i].location == frames[|frames| - 1 - i]
  }

  ghost function Nodes(s: seq<CallFrame>): set<CallFrame> {
    set n | n in s
  }

  lemma NodesGrow(s: seq<CallFrame>, k: nat)
    requires k < |s|
    ensures Nodes(s[..k + 1]) == Nodes(s[..k]) + {s[k]} && s[k] in Nodes(s)
  {
  }

  /** Prepending a frame whose caller is the head gives a list again. */
  lemma Prepend(frame: CallFrame, head: CallFrame?, nodes: seq<CallFrame>, frames: seq<Location>)
    requires IsList(head, nodes) && HoldsReversed(nodes, frames)
    requires frame !in nodes && frame.caller == head
    ensures IsList(frame, [frame] + nodes)
    ensures HoldsReversed([frame] + nodes, frames + [frame.location])
    ensures Nodes([frame] + nodes) == Nodes(nodes) + {frame}
  {
  }

  /** The frames collected so far and what the walk adds to them from the last one on. */
  ghost predicate Joins(walk: Walk, done: seq<Location>, read: Reader, left: nat) {
    && done != []
    && var last := done[|done| - 1];
       && WalkFrom(read, last.pc, last.framePointer, left).Some?
       && var rest := WalkFrom(read, last.pc, last.framePointer, left).value;
          if rest.Failed? then walk.Failed? else walk == Frames(done[..|done| - 1] + rest.frames)
  }

  lemma JoinsStart(read: Reader, pc: Word, fp: Word, links: nat)
    requires WalkFrom(read, pc, fp, links).Some?
    ensures Joins(WalkFrom(read, pc, fp, links).value, [Location(pc, fp)], read, links)
  {
  }

  lemma JoinsEnd(walk: Walk, done: seq<Location>, read: Reader, left: nat)
    requires Joins(walk, done, read, left) && done[|done| - 1].framePointer == 0
    ensures walk == Frames(done)
  {
  }

  lemma EmptyList()
    ensures IsList(null, []) && HoldsReversed([], []) && Nodes([]) == {}
  {
  }

  lemma JoinsNext(walk: Walk, done: seq<Location>, read: Reader, left: nat)
    requires Joins(walk, done, read, left) && done[|done| - 1].framePointer != 0
    ensures var fp := done[|done| - 1].framePointer;
            && (read(Add(fp, 8)).None? || read(fp).None? ==> walk.Failed?)
            && (read(Add(fp, 8)).Some? && read(fp).Some? ==>
                  left > 0 && Joins(walk, done + [Location(read(Add(fp, 8)).value, read(fp).value)], read, left - 1))
  {
  }

  /** The frames that are allocated and not yet freed. */
  class Allocator {
    ghost var live: set<CallFrame>

    constructor ()
      ensures live == {}
    {
      live := {};
    }

    method Malloc(caller: CallFrame?, location: Location) returns (frame: CallFrame)
      modifies this
      ensures fresh(frame) && frame.caller == caller && frame.location == location
      ensures live == old(live) + {frame}
    {
      frame := new CallFrame(caller, location);
      live := live + {frame};
    }

    /** Only a live frame may be freed. */
    method Free(frame: CallFrame)
      requires frame in live
      modifies this
      ensures live == old(live) - {frame}
    {
      live := live - {frame};
    }

    /** free_backtrace: frees every frame of the list, each one once. */
    method FreeBacktrace(head: CallFrame?, ghost nodes: seq<CallFrame>)
      requires IsList(head, nodes) && Nodes(nodes) <= live
      modifies this
      ensures live == old(live) - Nodes(nodes)
    {
      var callFrame := head;
      ghost var k := 0;
      while callFrame != null
        invariant IsList(head, nodes)
        invariant k <= |nodes| && callFrame == NodeAt(nodes, k)
        invariant live == old(live) - Nodes(nodes[..k])
        decreases |nodes| - k
      {
        var caller := callFrame.caller;
        assert nodes[k] !in nodes[..k];
        Free(callFrame);
        NodesGrow(nodes, k);
        k := k + 1;
        callFrame := caller;
      }
      assert nodes[..k] == nodes;
    }

    /**
     * init_backtrace: on success a list of all frames of the walk, outermost first; when
     * a read fails, null and nothing left allocated.
     */
    method InitBacktrace(read: Reader, pc: Word, rbp: Option<Word>, ghost links: nat)
      returns (head: CallFrame?, ghost nodes: seq<CallFrame>)
      requires rbp.Some? ==> WalkFrom(read, pc, rbp.value, links).Some?
      modifies this
      ensures if rbp.None? || WalkFrom(read, pc, rbp.value, links).value.Failed?
              then head == null && live == old(live)
              else
                && head != null && fresh(nodes) && IsList(head, nodes)
                && HoldsReversed(nodes, WalkFrom(read, pc, rbp.value, links).value.frames)
                && live == old(live) + Nodes(nodes)
    {
      hide WalkFrom, Joins, IsList, HoldsReversed, NodeAt, Nodes;
      nodes := [];
      if rbp.None? {
        return null, nodes;
      }
      var framePointer, pc' := rbp.value, pc;
      ghost var left := links;
      ghost var walk := WalkFrom(read, pc, framePointer, links).value;
      head := Malloc(null, Location(pc, framePointer));
      EmptyList();
      Prepend(head, null, [], []);
      nodes := [head] + [];
      ghost var done := [] + [Location(pc, framePointer)];
      JoinsStart(read, pc, framePointer, links);
      assert done == [Location(pc, framePointer)];
      while framePointer != 0
        invariant head != null && fresh(nodes) && IsList(head, nodes) && HoldsReversed(nodes, done)
        invariant live == old(live) + Nodes(nodes) && Nodes(nodes) !! old(live)
        invariant Joins(walk, done, read, left) && done != [] && done[|done| - 1] == Location(pc', framePointer)
        decreases left
      {
        JoinsNext(walk, done, read, left);
        var returnAddress := read(Add(framePointer, 8));
        if returnAddress.None? {
          FreeBacktrace(head, nodes);
          return null, nodes;
        }
        pc' := returnAddress.value;
        var saved := read(framePointer);
        if saved.None? {
          FreeBacktrace(head, nodes);
          return null, nodes;
        }
        framePointer := saved.value;
        left := left - 1;
        var frame := Malloc(head, Location(pc', framePointer));
        Prepend(frame, head, nodes, done);
        done := done + [Location(pc', framePointer)];
        nodes := [frame] + nodes;
        head := frame;
      }
      JoinsEnd(walk, done, read, left);
    }
  }
}
