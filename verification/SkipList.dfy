/** The server's linked skip list: four pointers per node, ranks split and merged in place. Its abstract value is the
    block sequence; every operation is proved against the functions on that sequence. */
module SkipList {
  import opened SkipListLabels
  import opened SkipListProofs
  import opened SkipListUpdates
  import opened SkipListModify
  import opened SkipListProtocol
  import opened ModArith
  import opened Options
  import opened SkipListNodes

  /** A node a search has left, and the direction it took. */
  datatype PathEntry = PathEntry(node: Node, wentRight: bool)

  /** The same by level and position. */
  datatype Hop = Hop(l: nat, i: nat, right: bool)

  ghost predicate HopOn(s: seq<Block>, h: Hop) {
    h.l < MAX_HEIGHT && h.i <= |s| && h.l < Height(s, h.i)
  }

  ghost predicate EntryIs(s: seq<Block>, rows: seq<Row>, e: PathEntry, h: Hop) {
    && HopOn(s, h) && |rows| == MAX_HEIGHT && |rows[h.l]| == |s| + 2
    && e.node == rows[h.l][h.i] && e.wentRight == h.right
  }

  ghost predicate PathIs(s: seq<Block>, rows: seq<Row>, path: seq<PathEntry>, hops: seq<Hop>) {
    |path| == |hops| && forall k | 0 <= k < |path| :: EntryIs(s, rows, path[k], hops[k])
  }

  ghost function HopStep(s: seq<Block>, h: Hop): ProofStep {
    if !HopOn(s, h) then ProofStep(0, 0, false, false, Absent)
    else if h.right then RightStep(s, h.l, h.i)
    else DownStep(s, h.l, h.i)
  }

  /** The proof steps of a search path, last hop first. */
  ghost function HopSteps(s: seq<Block>, hops: seq<Hop>): seq<ProofStep> {
    if hops == [] then []
    else [HopStep(s, hops[|hops| - 1])] + HopSteps(s, hops[..|hops| - 1])
  }

  /** Extending a search by one hop extends the path of the node it reaches. */
  lemma {:induction false} SearchRight(s: seq<Block>, hops: seq<Hop>, l: nat, i: nat)
    requires WellFormed(s) && l < MAX_HEIGHT && i <= |s| && l < Height(s, i)
    requires Next(s, l, i) <= |s| && !Tower(s, l, Next(s, l, i))
    requires HopSteps(s, hops) == PathSteps(s, l, i)
    ensures HopSteps(s, hops + [Hop(l, i, true)]) == PathSteps(s, l, Next(s, l, i))
  {
    hide Next, Prev, LabelAt, PathSteps;
    NeighboursInverse(s, l, i);
    PathUnfold(s, l, Next(s, l, i));
    assert (hops + [Hop(l, i, true)])[..|hops|] == hops;
  }

  lemma {:induction false} SearchDown(s: seq<Block>, hops: seq<Hop>, l: nat, i: nat)
    requires WellFormed(s) && 1 <= l < MAX_HEIGHT && i <= |s| && l < Height(s, i)
    requires HopSteps(s, hops) == PathSteps(s, l, i)
    ensures HopSteps(s, hops + [Hop(l, i, false)]) == PathSteps(s, l - 1, i)
  {
    hide Next, Prev, LabelAt, PathSteps;
    PathUnfold(s, l - 1, i);
    assert (hops + [Hop(l, i, false)])[..|hops|] == hops;
  }

  class SkipList {
    var levels: seq<Node>
    var n: int
    var heights: seq<int>

    ghost var blocks: seq<Block>
    ghost var rows: seq<Row>
    ghost var nodes: set<Node>

    /** The linked structure is the faithful image of the block sequence. */
    ghost predicate Valid()
      reads `levels, `n, `blocks, `rows, `nodes, nodes
    {
      && WellFormed(blocks) && n == |blocks|
      && |levels| == MAX_HEIGHT && Shaped(blocks, rows, nodes)
      && (forall l | 0 <= l < MAX_HEIGHT :: levels[l] == rows[l][0])
      && AllLinked(blocks, rows, nodes) && AllStacked(blocks, rows, nodes)
    }

    /** The recorded heights are those of the towers. */
    ghost predicate HeightsRecorded()
      reads this
    {
      heights == HeightsOf(blocks)
    }

    /** The facts about one node that the traversals use. */
    lemma {:induction false} NodeFacts(l: nat, i: nat)
      requires Valid() && l < MAX_HEIGHT && i < |blocks| + 2 && l < Height(blocks, i)
      ensures rows[l][i] != null && rows[l][i] in nodes
      ensures var v := rows[l][i];
        && v.level == l
        && v.isSentinel == (i == 0 || i == |blocks| + 1)
        && (l == 0 ==> ZeroEntry(v.rank, v.tag) == Elem(blocks, i))
        && (l > 0 ==> l - 1 < Height(blocks, i) && v.down != null && v.down == rows[l - 1][i])
        && (l == 0 ==> v.down == null)
        && (v.up != null <==> Tower(blocks, l, i))
        && v.rank == Rank(blocks, l, i)
        && (i <= |blocks| ==> v.right != null && v.right == rows[l][Next(blocks, l, i)])
        && (i == |blocks| + 1 ==> v.right == null)
    {
      hide Next, Prev, LabelAt, Valid;
      AcrossFacts(l, i);
      StackFacts(l, i);
      LevelsShape();
      ElemRank(blocks, i);
    }

    lemma {:induction false} AcrossFacts(l: nat, i: nat)
      requires Valid() && l < MAX_HEIGHT && i < |blocks| + 2 && l < Height(blocks, i)
      ensures rows[l][i] != null && rows[l][i] in nodes
      ensures var v := rows[l][i];
        && v.rank == Rank(blocks, l, i)
        && (i <= |blocks| ==> v.right != null && v.right == rows[l][Next(blocks, l, i)])
        && (i == |blocks| + 1 ==> v.right == null)
    {
      hide Next, Prev, LabelAt, RowShape, AllStacked;
      assert RowShape(blocks, rows[l], l) && RowLinked(blocks, rows[l], l);
      RowPresence(blocks, rows[l], l, i);
      assert RowIn(rows[l], nodes) && rows[l][i] in rows[l];
      LinkedAt(blocks, rows[l], l, i);
    }

    lemma {:induction false} StackFacts(l: nat, i: nat)
      requires Valid() && l < MAX_HEIGHT && i < |blocks| + 2 && l < Height(blocks, i)
      ensures rows[l][i] != null
      ensures var v := rows[l][i];
        && v.level == l && v.tag == (if l == 0 then Elem(blocks, i).tag else NoTag)
        && v.isSentinel == (i == 0 || i == |blocks| + 1)
        && (l > 0 ==> v.down != null && v.down == rows[l - 1][i])
        && (l == 0 ==> v.down == null)
        && (v.up != null <==> Tower(blocks, l, i))
    {
      hide Next, Prev, LabelAt, RowShape, AllLinked;
      assert RowShape(blocks, rows[l], l);
      RowPresence(blocks, rows[l], l, i);
      assert At(rows, l, i) == rows[l][i] && Stacked(blocks, rows, l, i);
      if l + 1 < MAX_HEIGHT {
        assert RowShape(blocks, rows[l + 1], l + 1);
        RowPresence(blocks, rows[l + 1], l + 1, i);
      }
      if l > 0 {
        assert RowShape(blocks, rows[l - 1], l - 1);
        RowPresence(blocks, rows[l - 1], l - 1, i);
      }
    }

    lemma {:induction false} LevelsShape()
      requires Valid()
      ensures n == |blocks| && WellFormed(blocks) && |levels| == |rows| == MAX_HEIGHT
      ensures forall l | 0 <= l < MAX_HEIGHT :: |rows[l]| == |blocks| + 2 && levels[l] == rows[l][0]
    {
      assert forall l | 0 <= l < MAX_HEIGHT :: RowShape(blocks, rows[l], l);
    }

    // -------------------------------------------------------------- labels

    static predicate IsTower(v: Node)
      reads v
    {
      v.up != null
    }

    /** The labelling function, by recursion over the pointers. */
    method F(v: Node, ghost l: nat, ghost i: nat) returns (g: Label)
      requires Valid() && l < MAX_HEIGHT && i < |blocks| + 2
      requires l < Height(blocks, i) && rows[l][i] == v
      ensures g == LabelAt(blocks, l, i)
      decreases l, |blocks| + 1 - i
    {
      hide Next, LabelAt, Valid;
      NodeFacts(l, i);
      LabelUnfold(blocks, l, i);
      var w := v.right;
      if w == null {
        return Null;
      }
      ghost var j := Next(blocks, l, i);
      NodeFacts(l, j);
      if v.level == 0 {
        if IsTower(w) {
          return Hash2(Raw(ZeroEntry(v.rank, v.tag)), Raw(ZeroEntry(w.rank, w.tag)));
        }
        var right := F(w, l, j);
        return Hash2(Raw(ZeroEntry(v.rank, v.tag)), right);
      }
      if IsTower(w) {
        g := F(v.down, l - 1, i);
        return;
      }
      var below := F(v.down, l - 1, i);
      var right := F(w, l, j);
      return Hash4(v.level, v.rank, below, right);
    }

    /** The current basis. */
    method StartLabel() returns (g: Label)
      requires Valid()
      ensures g == Basis(blocks)
    {
      g := F(levels[|levels| - 1], MAX_HEIGHT - 1, 0);
    }

    method DownValueFor(v: Node, ghost l: nat, ghost i: nat) returns (g: Label)
      requires Valid() && l < MAX_HEIGHT && i <= |blocks| && l < Height(blocks, i)
      requires rows[l][i] == v
      ensures g == DownValue(blocks, l, i)
    {
      hide Next, LabelAt, Valid;
      NodeFacts(l, i);
      if v.level == 0 {
        return Raw(ZeroEntry(v.rank, v.tag));
      }
      g := F(v.down, l - 1, i);
    }

    method RightValFor(v: Node, ghost i: nat) returns (g: Label)
      requires Valid() && i <= |blocks| && rows[0][i] == v
      ensures 0 < Height(blocks, Next(blocks, 0, i)) && g == RightValue(blocks, i)
    {
      assert 0 < Height(blocks, i);
      hide Next, LabelAt, Valid;
      NodeFacts(0, i);
      ghost var j := Next(blocks, 0, i);
      NodeFacts(0, j);
      var w := v.right;
      if IsTower(w) {
        return Raw(ZeroEntry(w.rank, w.tag));
      }
      g := F(w, 0, j);
    }

    // -------------------------------------------------------------- traversals

    /** What a traversal sees at a node: where right and down lead, and how its rank measures the hop. */
    lemma {:induction false} HopFacts(l: nat, i: nat)
      requires Valid() && l < MAX_HEIGHT && i <= |blocks| && l < Height(blocks, i)
      ensures rows[l][i] != null
      ensures var v := rows[l][i]; var j := Next(blocks, l, i);
        && v.level == l
        && (v.isSentinel <==> i == 0)
        && v.right != null && v.right == rows[l][j]
        && (v.right.isSentinel <==> j == |blocks| + 1)
        && Before(i) + v.rank == j - 1
        && (l == 0 ==> v.down == null)
        && (l > 0 ==> l - 1 < Height(blocks, i) && v.down != null && v.down == rows[l - 1][i])
    {
      hide Next, Prev, LabelAt, Valid;
      NodeFacts(l, i);
      NodeFacts(l, Next(blocks, l, i));
    }

    /** One level of findPreds: right while the next node still ends before pos. */
    method WalkRight(start: Node, startPassed: int, pos: int, ghost lvl: nat, ghost from: nat)
      returns (v: Node, passed: int)
      requires Valid() && lvl < MAX_HEIGHT && from < pos <= n + 1
      requires lvl < Height(blocks, from)
      requires start == rows[lvl][from] && startPassed == Before(from)
      requires forall k | from < k < pos :: Height(blocks, k) <= lvl + 1
      ensures from <= Prev(blocks, lvl, pos)
      ensures v == rows[lvl][Prev(blocks, lvl, pos)]
      ensures passed == Before(Prev(blocks, lvl, pos))
    {
      hide Next, Prev, LabelAt, Valid, Rank;
      LevelsShape();
      v, passed := start, startPassed;
      ghost var i := from;
      while true
        invariant from <= i < pos && lvl < Height(blocks, i) && v == rows[lvl][i] && passed == Before(i)
        decreases pos - i
      {
        HopFacts(lvl, i);
        var w := v.right;
        if w == null || w.isSentinel { break; }
        if pos > passed + v.rank + 1 {
          passed := passed + v.rank;
          v := w;
          i := Next(blocks, lvl, i);
        } else {
          break;
        }
      }
      PrevIs(blocks, lvl, i, pos);
    }

    /** On every level the last node before pos, and the data blocks strictly left of it. */
    method FindPreds(pos: int) returns (preds: seq<Node>, passedAt: seq<int>)
      requires Valid() && 1 <= pos <= n + 1
      ensures |preds| == MAX_HEIGHT && |passedAt| == MAX_HEIGHT
      ensures forall l | 0 <= l < MAX_HEIGHT :: IsPred(blocks, rows, l, pos, preds[l], passedAt[l])
    {
      hide Next, Prev, LabelAt, Valid, Rank;
      LevelsShape();
      preds, passedAt := levels, seq(|levels|, _ => 0);
      var v: Node := levels[|levels| - 1];
      var passed := 0;
      var lvl := |levels| - 1;
      ghost var s, rs := blocks, rows;
      ghost var i: nat := 0;
      while lvl >= 0
        invariant -1 <= lvl < MAX_HEIGHT && i < pos
        invariant lvl >= 0 ==> lvl < Height(s, i) && v == rs[lvl][i] && passed == Before(i)
        invariant forall k | i < k < pos :: Height(s, k) <= lvl + 1
        invariant |preds| == |passedAt| == MAX_HEIGHT
        invariant forall l | lvl < l < MAX_HEIGHT :: IsPred(s, rs, l, pos, preds[l], passedAt[l])
      {
        v, passed := WalkRight(v, passed, pos, lvl, i);
        i := Prev(s, lvl, pos);
        preds := preds[lvl := v];
        passedAt := passedAt[lvl := passed];
        if lvl > 0 {
          HopFacts(lvl, i);
          v := v.down;
        }
        lvl := lvl - 1;
      }
    }

    /** The proof steps of a search path, bottom-up. */
    method StepsOf(path: seq<PathEntry>, ghost hops: seq<Hop>) returns (steps: seq<ProofStep>)
      requires Valid() && PathIs(blocks, rows, path, hops)
      ensures steps == HopSteps(blocks, hops)
    {
      hide Next, Prev, LabelAt, Valid, EntryIs, HopStep;
      steps := [];
      assert hops[..|path|] == hops;
      for k := |path| downto 0
        invariant steps + HopSteps(blocks, hops[..k]) == HopSteps(blocks, hops)
      {
        var step := StepOf(path[k], hops[k]);
        assert hops[..k + 1][..k] == hops[..k];
        steps := steps + [step];
      }
    }

    method StepOf(e: PathEntry, ghost h: Hop) returns (step: ProofStep)
      requires Valid() && EntryIs(blocks, rows, e, h)
      ensures step == HopStep(blocks, h)
    {
      hide Next, Prev, LabelAt, Valid;
      var node := e.node;
      NodeFacts(h.l, h.i);
      if e.wentRight {
        var sib := DownValueFor(node, h.l, h.i);
        return ProofStep(node.level, node.rank, true, false, sib);
      }
      var w := node.right;
      ghost var j := Next(blocks, h.l, h.i);
      NodeFacts(h.l, j);
      if IsTower(w) {
        return ProofStep(node.level, node.rank, false, true, Absent);
      }
      var sib := F(w, h.l, j);
      return ProofStep(node.level, node.rank, false, false, sib);
    }

    /** A search for position last that stands at position i on level l, having come by the given hops. */
    ghost predicate Searching(v: Node, passed: int, path: seq<PathEntry>, hops: seq<Hop>, l: nat, i: nat, last: nat)
      reads this
    {
      && l < MAX_HEIGHT && i <= last <= |blocks| && l < Height(blocks, i)
      && l < |rows| && i < |rows[l]| && v == rows[l][i] && passed == Before(i)
      && (forall k | i < k <= last :: Height(blocks, k) <= l + 1)
      && PathIs(blocks, rows, path, hops)
      && HopSteps(blocks, hops) == PathSteps(blocks, l, i)
    }

    lemma {:induction false} SearchStart(last: nat)
      requires Valid() && last <= |blocks|
      ensures |levels| == |rows| == MAX_HEIGHT
      ensures Searching(levels[MAX_HEIGHT - 1], 0, [], [], MAX_HEIGHT - 1, 0, last)
    {
      LevelsShape();
    }

    lemma {:induction false} GoRight(v: Node, passed: int, path: seq<PathEntry>, hops: seq<Hop>, l: nat, i: nat,
                                     last: nat)
      requires Valid() && Searching(v, passed, path, hops, l, i, last)
      requires Next(blocks, l, i) <= last
      ensures v.right != null
      ensures Searching(v.right, passed + v.rank, path + [PathEntry(v, true)], hops + [Hop(l, i, true)],
                        l, Next(blocks, l, i), last)
    {
      hide Valid, Next, Prev, LabelAt, PathSteps, HopSteps;
      LevelsShape();
      HopFacts(l, i);
      SearchRight(blocks, hops, l, i);
    }

    lemma {:induction false} GoDown(v: Node, passed: int, path: seq<PathEntry>, hops: seq<Hop>, l: nat, i: nat,
                                    last: nat)
      requires Valid() && Searching(v, passed, path, hops, l, i, last) && l >= 1
      requires last < Next(blocks, l, i)
      ensures v.down != null
      ensures Searching(v.down, passed, path + [PathEntry(v, false)], hops + [Hop(l, i, false)], l - 1, i, last)
    {
      hide Valid, Next, Prev, LabelAt, PathSteps, HopSteps;
      LevelsShape();
      HopFacts(l, i);
      SearchDown(blocks, hops, l, i);
    }

    /** The proof for the data block at pos. */
    method AtRank(pos: int) returns (r: Option<BlockProof>)
      requires Valid()
      ensures r == if 1 <= pos <= |blocks| then Some(BlockProofAt(blocks, pos)) else None
    {
      hide Next, Prev, LabelAt, Valid, Rank, PathSteps, HopSteps;
      LevelsShape();
      if pos < 1 || pos > n {
        return None;
      }
      var v, path, hops := SearchTower(pos);
      NodeFacts(0, pos);
      var targetRightVal := RightValFor(v, pos);
      var steps := StepsOf(path, hops);
      return Some(BlockProof(ZeroEntry(v.rank, v.tag), targetRightVal, IsTower(v), steps));
    }

    /** atRank's descent: down to level 0 staying at or before pos, then right along it. The two walks never run off
        the end of the list. */
    method SearchTower(pos: int) returns (v: Node, path: seq<PathEntry>, ghost hops: seq<Hop>)
      requires Valid() && 1 <= pos <= n
      ensures |blocks| == n && |rows| == MAX_HEIGHT && |rows[0]| == |blocks| + 2
      ensures rows[0][pos] == v
      ensures PathIs(blocks, rows, path, hops)
      ensures HopSteps(blocks, hops) == PathSteps(blocks, 0, pos)
    {
      hide Next, Prev, LabelAt, Valid, Rank, PathSteps, HopSteps, Searching, PathIs;
      LevelsShape();
      SearchStart(pos);
      v, path, hops := levels[|levels| - 1], [], [];
      var passed := 0;
      ghost var l: nat, i: nat := MAX_HEIGHT - 1, 0;
      SearchFacts(v, passed, path, hops, l, i, pos);
      while v.down != null || v.level > 0
        invariant Searching(v, passed, path, hops, l, i, pos) && v.level == l && (l > 0 <==> v.down != null)
        decreases l, pos - i
      {
        SearchFacts(v, passed, path, hops, l, i, pos);
        var w := v.right;
        if w != null && !w.isSentinel && pos > passed + v.rank {
          GoRight(v, passed, path, hops, l, i, pos);
          path, hops := path + [PathEntry(v, true)], hops + [Hop(l, i, true)];
          passed := passed + v.rank;
          v := w;
          i := Next(blocks, l, i);
        } else {
          GoDown(v, passed, path, hops, l, i, pos);
          path, hops := path + [PathEntry(v, false)], hops + [Hop(l, i, false)];
          v := v.down;
          l := l - 1;
        }
        SearchFacts(v, passed, path, hops, l, i, pos);
      }
      SearchFacts(v, passed, path, hops, l, i, pos);
      while v.isSentinel || passed + 1 != pos
        invariant Searching(v, passed, path, hops, 0, i, pos) && i <= pos
        invariant (v.isSentinel <==> i == 0) && passed == Before(i)
        decreases pos - i
      {
        SearchFacts(v, passed, path, hops, 0, i, pos);
        GoRight(v, passed, path, hops, 0, i, pos);
        path, hops := path + [PathEntry(v, true)], hops + [Hop(0, i, true)];
        if !v.isSentinel {
          passed := passed + 1;
        }
        v := v.right;
        i := i + 1;
        SearchFacts(v, passed, path, hops, 0, i, pos);
      }
      SearchFacts(v, passed, path, hops, 0, i, pos);
    }

    /** What the traversal code can see while searching. */
    lemma {:induction false} SearchFacts(v: Node, passed: int, path: seq<PathEntry>, hops: seq<Hop>, l: nat, i: nat,
                                         last: nat)
      requires Valid() && Searching(v, passed, path, hops, l, i, last)
      ensures i <= last && passed == Before(i) && v.level == l
      ensures (v.isSentinel <==> i == 0)
      ensures |rows| == MAX_HEIGHT && |rows[l]| == |blocks| + 2 && v == rows[l][i]
      ensures v.right != null
      ensures (v.right.isSentinel <==> Next(blocks, l, i) == |blocks| + 1)
      ensures passed + v.rank == Next(blocks, l, i) - 1
      ensures l > 0 <==> v.down != null
      ensures l == 0 ==> Next(blocks, l, i) == i + 1
      ensures PathIs(blocks, rows, path, hops)
      ensures HopSteps(blocks, hops) == PathSteps(blocks, l, i)
    {
      hide Valid, Next, Prev, LabelAt, PathSteps, HopSteps;
      LevelsShape();
      HopFacts(l, i);
      if l == 0 {
        NextIs(blocks, 0, i, i + 1);
      }
    }

    /** The proof of the gap before pos, and on every level the blocks left of its predecessor. */
    method AtInsertionPoint(pos: int) returns (r: Option<(BlockProof, seq<int>)>)
      requires Valid()
      ensures r.Some? <==> 1 <= pos <= |blocks| + 1
      ensures r.Some? ==> r.value.0 == InsertionPointAt(blocks, pos) && |r.value.1| == MAX_HEIGHT
      ensures r.Some? ==> forall l | 0 <= l < MAX_HEIGHT :: r.value.1[l] == Before(Prev(blocks, l, pos))
    {
      hide Next, Prev, LabelAt, Valid, Rank, PathSteps, HopSteps, PathIs;
      LevelsShape();
      if pos < 1 || pos > n + 1 {
        return None;
      }
      var v, path, passedAt, hops := SearchGap(pos);
      NodeFacts(0, pos - 1);
      var targetRightVal := RightValFor(v, pos - 1);
      var steps := StepsOf(path, hops);
      return Some((BlockProof(ZeroEntry(v.rank, v.tag), targetRightVal, false, steps), passedAt));
    }

    /** atInsertionPoint's descent, staying strictly before pos on every level. */
    method SearchGap(pos: int) returns (v: Node, path: seq<PathEntry>, passedAt: seq<int>, ghost hops: seq<Hop>)
      requires Valid() && 1 <= pos <= n + 1
      ensures |blocks| == n && |rows| == MAX_HEIGHT && |rows[0]| == |blocks| + 2
      ensures rows[0][pos - 1] == v
      ensures PathIs(blocks, rows, path, hops)
      ensures HopSteps(blocks, hops) == PathSteps(blocks, 0, pos - 1)
      ensures |passedAt| == MAX_HEIGHT
      ensures forall l | 0 <= l < MAX_HEIGHT :: passedAt[l] == Before(Prev(blocks, l, pos))
    {
      hide Next, Prev, LabelAt, Valid, Rank, PathSteps, HopSteps, Searching, PathIs;
      LevelsShape();
      SearchStart(pos - 1);
      v, path, hops := levels[|levels| - 1], [], [];
      passedAt := seq(|levels|, _ => 0);
      var passed := 0;
      ghost var l: nat, i: nat := MAX_HEIGHT - 1, 0;
      while true
        invariant Searching(v, passed, path, hops, l, i, pos - 1)
        invariant l < MAX_HEIGHT == |passedAt|
        invariant forall k | l < k < MAX_HEIGHT :: passedAt[k] == Before(Prev(blocks, k, pos))
        decreases l, pos - i
      {
        SearchFacts(v, passed, path, hops, l, i, pos - 1);
        var w := v.right;
        if w != null && !w.isSentinel && pos > passed + v.rank + 1 {
          GoRight(v, passed, path, hops, l, i, pos - 1);
          path, hops := path + [PathEntry(v, true)], hops + [Hop(l, i, true)];
          passed := passed + v.rank;
          v := w;
          i := Next(blocks, l, i);
          continue;
        }
        SearchPrev(v, passed, path, hops, l, i, pos);
        passedAt := passedAt[v.level := passed];
        if v.level > 0 {
          GoDown(v, passed, path, hops, l, i, pos - 1);
          path, hops := path + [PathEntry(v, false)], hops + [Hop(l, i, false)];
          v := v.down;
          l := l - 1;
          continue;
        }
        break;
      }
      SearchFacts(v, passed, path, hops, l, i, pos - 1);
    }

    lemma {:induction false} SearchPrev(v: Node, passed: int, path: seq<PathEntry>, hops: seq<Hop>, l: nat, i: nat,
                                        pos: nat)
      requires Valid() && 1 <= pos
      requires Searching(v, passed, path, hops, l, i, pos - 1)
      requires pos <= Next(blocks, l, i)
      ensures Prev(blocks, l, pos) == i
      ensures l == 0 ==> i == pos - 1
    {
      hide Valid, Next, Prev, LabelAt, PathSteps, HopSteps;
      LevelsShape();
      PrevIs(blocks, l, i, pos);
      assert l == 0 && i < pos - 1 ==> Height(blocks, i + 1) >= 1;
    }

    /** The level-0 node at pos. */
    method LocateNode(pos: int) returns (r: Node?)
      requires Valid()
      ensures |blocks| == n && |rows| == MAX_HEIGHT && |rows[0]| == |blocks| + 2
      ensures r == if 1 <= pos <= |blocks| then rows[0][pos] else null
      ensures r == null <==> !(1 <= pos <= |blocks|)
    {
      hide Next, Prev, LabelAt, Valid;
      LevelsShape();
      if pos < 1 || pos > n {
        return null;
      }
      var v, path, hops := SearchTower(pos);
      return v;
    }

    // -------------------------------------------------------------- updates in place

    /** Inserts the block's tag at pos with a tower of the given height. */
    method DoInsert(pk: PublicKey, pos: int, block: nat, h: int) returns (ok: bool)
      requires Valid() && pk.n > 1 && 1 <= pos <= n + 1 && h >= 1
      modifies this, nodes
      ensures Valid() && fresh(nodes - old(nodes)) && heights == old(heights)
      ensures ok <==> h <= 64
      ensures blocks == if ok then Insert(old(blocks), pos, Block(BlockTag(pk, block), h)) else old(blocks)
    {
      hide Next, Prev, LabelAt, Mixed, Shaped, Insert, InsertInRow, IsPred, TowerLinked, AllLinked, AllStacked;
      hide InsertedRows;
      if h > MAX_HEIGHT {
        return false;
      }
      var tagBytes := Tag(BlockTag(pk, block));
      var preds, passedAt := FindPreds(pos);
      LevelsShape();
      ghost var s, rs := blocks, rows;
      ghost var s' := Insert(s, pos, Block(BlockTag(pk, block), h));
      InsertSpans(s, pos, Block(BlockTag(pk, block), h));
      ValidMixed(s');
      PredsAt(pos, preds, passedAt);
      ghost var tower, midRows, newRows;
      tower, midRows := SpliceTower(preds, passedAt, pos, h, tagBytes, s, s', rs, nodes);
      newRows := AbsorbAbove(preds, pos, h, s, s', rs, midRows, nodes);
      assert InsertedRows(rs, newRows, pos, tower) by { RowsOfInsert(rs, midRows, newRows, pos, tower, |s|); }
      InsertedValid(s, s', rs, newRows, pos, tower, nodes);
      n := n + 1;
      blocks, rows, nodes := s', newRows, nodes + (set o | o in tower);
      return true;
    }

    lemma {:induction false} ValidMixed(s': seq<Block>)
      requires Valid()
      ensures Mixed(blocks, s', rows, 0) && Shaped(blocks, rows, nodes)
    {
    }

    lemma {:induction false} PredsAt(pos: nat, preds: seq<Node>, passedAt: seq<int>)
      requires Valid() && 1 <= pos <= n + 1 && |preds| == |passedAt| == MAX_HEIGHT
      requires forall l | 0 <= l < MAX_HEIGHT :: IsPred(blocks, rows, l, pos, preds[l], passedAt[l])
      ensures forall l | 0 <= l < MAX_HEIGHT :: preds[l] == At(rows, l, Prev(blocks, l, pos))
    {
      hide Next, Prev, LabelAt, Valid;
      LevelsShape();
      forall l | 0 <= l < MAX_HEIGHT ensures preds[l] == At(rows, l, Prev(blocks, l, pos)) {
        assert IsPred(blocks, rows, l, pos, preds[l], passedAt[l]);
      }
    }

    /** Removes the block at pos. */
    method DeleteAt(pos: int) returns (ok: bool)
      requires Valid()
      modifies this, nodes
      ensures Valid() && nodes == old(nodes) && heights == old(heights)
      ensures ok <==> 1 <= pos <= old(|blocks|)
      ensures blocks == if ok then Delete(old(blocks), pos) else old(blocks)
    {
      hide Next, Prev, LabelAt, Mixed, Shaped, Insert, Delete, RemoveFromRow, IsPred, AllLinked, AllStacked;
      var target := LocateNode(pos);
      if target == null {
        LevelsShape();
        return false;
      }
      LevelsShape();
      var preds, passedAt := FindPreds(pos);
      ghost var s', rs := blocks, rows;
      ghost var s := Delete(s', pos);
      DeletedAt(s', pos);
      ValidMixed(s);
      PredsAt(pos, preds, passedAt);
      PredsOfShorter(s, s', pos);
      ghost var newRows := RemoveTower(target, preds, pos, s, s', rs, nodes);
      assert RemovedRows(rs, newRows, pos);
      RemovedShape(s, s', rs, newRows, pos, nodes);
      RemovedStacks(s, s', rs, newRows, pos, nodes);
      assert forall l | 0 <= l < MAX_HEIGHT :: |newRows[l]| >= 1 && newRows[l][0] == rs[l][0] by {
        RemovedLevels(rs, newRows, pos);
      }
      n := n - 1;
      blocks, rows := s, newRows;
      return true;
    }

    /** Replaces the tag of the block at pos. */
    method ModifyAt(pk: PublicKey, pos: int, block: nat) returns (ok: bool)
      requires Valid() && pk.n > 1
      modifies this, nodes
      ensures Valid() && nodes == old(nodes) && heights == old(heights)
      ensures ok <==> 1 <= pos <= old(|blocks|)
      ensures blocks == if ok then Modify(old(blocks), pos, BlockTag(pk, block)) else old(blocks)
    {
      hide Next, Prev, LabelAt, Shaped, Modify, AllLinked, AllStacked;
      var target := LocateNode(pos);
      if target == null {
        LevelsShape();
        return false;
      }
      LevelsShape();
      assert target in nodes && target.level == 0 by { NodeFacts(0, pos); }
      ghost var s := blocks;
      ghost var s' := Modify(s, pos, BlockTag(pk, block));
      ModifySpans(s, pos, BlockTag(pk, block));
      ModifiedLinks(s, pos, BlockTag(pk, block), rows, nodes);
      WriteTag(target, BlockTag(pk, block), s, pos, rows, nodes);
      blocks := s';
      return true;
    }

    /** Performs one update and returns the proofs the client needs to follow it. An update that cannot be performed
        leaves the list as it was. */
    method PerformUpdate(pk: PublicKey, op: UpdateOp) returns (r: Option<UpdateResult>)
      requires Valid() && HeightsRecorded() && pk.n > 1
      modifies this, nodes
      ensures Valid() && HeightsRecorded() && fresh(nodes - old(nodes))
      ensures old(WellFormed(blocks))
      ensures r == if old(Performable(blocks, op)) then Some(old(HonestResult(blocks, op))) else None
      ensures r.Some? ==>
                && (r.value.leftProof.Some?
                    <==> old(op.kind == OpModify && 1 <= op.pos <= |blocks| && blocks[op.pos - 1].height > 1))
                && (r.value.postProof.Some? <==> op.kind == OpDelete)
      ensures blocks == if old(Performable(blocks, op)) then old(Updated(pk, blocks, op)) else old(blocks)
    {
      hide Next, Prev, LabelAt, Valid, PathSteps, Modify, Insert, Delete, BlockProofAt, InsertionPointAt;
      LevelsShape();
      match op.kind
      case OpModify => r := PerformModify(pk, op.pos, op.block);
      case OpInsert => r := PerformInsert(pk, op.pos, op.block, op.height);
      case OpDelete => r := PerformDelete(op.pos);
      case OpOther => r := None;
    }

    method PerformModify(pk: PublicKey, pos: int, block: nat) returns (r: Option<UpdateResult>)
      requires Valid() && HeightsRecorded() && pk.n > 1
      modifies this, nodes
      ensures Valid() && HeightsRecorded() && fresh(nodes - old(nodes))
      ensures old(WellFormed(blocks))
      ensures 1 <= pos <= old(|blocks|) ==>
        && r == Some(UpdateResult(old(BlockProofAt(blocks, pos)),
                                  old(if Tower(blocks, 0, pos) then Some(InsertionPointAt(blocks, pos)) else None),
                                      None))
        && blocks == old(Modify(blocks, pos, BlockTag(pk, block)))
      ensures !(1 <= pos <= old(|blocks|)) ==> r == None && blocks == old(blocks)
    {
      hide Next, Prev, LabelAt, Valid, PathSteps, Modify, Tower, InsertionPointAt, HeightsOf;
      LevelsShape();
      var proof := AtRank(pos);
      if proof.None? { return None; }
      var leftProof := None;
      if proof.value.targetIsTower {
        var lp := AtInsertionPoint(pos);
        if lp.None? { return None; }
        leftProof := Some(lp.value.0);
      }
      var ok := ModifyAt(pk, pos, block);
      HeightsAfterModify(old(blocks), pos, BlockTag(pk, block));
      if !ok { return None; }
      return Some(UpdateResult(proof.value, leftProof, None));
    }

    method PerformInsert(pk: PublicKey, pos: int, block: nat, height: int) returns (r: Option<UpdateResult>)
      requires Valid() && HeightsRecorded() && pk.n > 1
      modifies this, nodes
      ensures Valid() && HeightsRecorded() && fresh(nodes - old(nodes))
      ensures old(WellFormed(blocks))
      ensures 1 <= pos <= old(|blocks|) + 1 && 1 <= height <= MAX_HEIGHT ==>
        && r == Some(UpdateResult(old(InsertionPointAt(blocks, pos)), None, None))
        && blocks == old(Insert(blocks, pos, Block(BlockTag(pk, block), height)))
      ensures !(1 <= pos <= old(|blocks|) + 1 && 1 <= height <= MAX_HEIGHT) ==> r == None && blocks == old(blocks)
    {
      hide Next, Prev, LabelAt, PathSteps, Insert, InsertionPointAt, Shaped, AllLinked, AllStacked, HeightsOf;
      LevelsShape();
      if height < 1 { return None; }
      var proof := AtInsertionPoint(pos);
      if proof.None? { return None; }
      var ok := DoInsert(pk, pos, block, height);
      if !ok { return None; }
      heights := heights[..pos - 1] + [height] + heights[pos - 1..];
      HeightsAfterInsert(old(blocks), pos, Block(BlockTag(pk, block), height));
      return Some(UpdateResult(proof.value.0, None, None));
    }

    method PerformDelete(pos: int) returns (r: Option<UpdateResult>)
      requires Valid() && HeightsRecorded()
      modifies this, nodes
      ensures Valid() && HeightsRecorded() && fresh(nodes - old(nodes))
      ensures old(WellFormed(blocks))
      ensures 1 <= pos <= old(|blocks|) ==>
        && WellFormed(blocks) && |blocks| == old(|blocks|) - 1
        && r == Some(UpdateResult(old(BlockProofAt(blocks, pos)), None, Some(InsertionPointAt(blocks, pos))))
        && blocks == old(Delete(blocks, pos))
      ensures !(1 <= pos <= old(|blocks|)) ==> r == None && blocks == old(blocks)
    {
      hide Next, Prev, LabelAt, PathSteps, Delete, InsertionPointAt, Shaped, AllLinked, AllStacked, HeightsOf;
      LevelsShape();
      var proof := AtRank(pos);
      if proof.None? { return None; }
      var ok := DeleteAt(pos);
      HeightsAfterDelete(old(blocks), pos);
      var postProof := AtInsertionPoint(pos);
      if postProof.None? { return None; }
      if pos - 1 < |heights| {
        heights := heights[..pos - 1] + heights[pos..];
      }
      return Some(UpdateResult(proof.value, None, Some(postProof.value.0)));
    }

    static lemma {:induction false} HeightsAfterModify(s: seq<Block>, pos: nat, tag: nat)
      requires 1 <= pos <= |s|
      ensures HeightsOf(Modify(s, pos, tag)) == HeightsOf(s)
    {
    }

    static lemma {:induction false} HeightsAfterInsert(s: seq<Block>, pos: nat, b: Block)
      requires 1 <= pos <= |s| + 1
      ensures HeightsOf(Insert(s, pos, b)) == HeightsOf(s)[..pos - 1] + [b.height] + HeightsOf(s)[pos - 1..]
    {
    }

    static lemma {:induction false} HeightsAfterDelete(s: seq<Block>, pos: nat)
      requires 1 <= pos <= |s|
      ensures HeightsOf(Delete(s, pos)) == HeightsOf(s)[..pos - 1] + HeightsOf(s)[pos..]
    {
    }

    // -------------------------------------------------------------- construction

    /** The empty list: 64 linked pairs of sentinels. */
    constructor ()
      ensures Valid() && blocks == [] && heights == [] && fresh(nodes)
    {
      n, heights, blocks := 0, [], [];
      levels, rows, nodes := [], [], {};
      new;
      hide Next, Prev, LabelAt, SentinelPair;
      ghost var rights;
      levels, rights := MakeLevels();
      ghost var lefts := levels;
      rows := seq(MAX_HEIGHT, l requires 0 <= l < MAX_HEIGHT => [lefts[l], rights[l]]);
      nodes := set o | o in levels + rights;
      SentinelsValid(levels, rights, rows, nodes);
    }
  }

  /** Builds the list for a whole file by appending block after block. It fails on an empty file, on a wrong number of
      heights and on a height above the limit. */
  method BuildWithHeights(pk: PublicKey, store: seq<nat>, heights: seq<int>) returns (r: Option<(SkipList, Label)>)
    requires pk.n > 1 && forall i | 0 <= i < |heights| :: heights[i] >= 1
    ensures r.Some? <==>
            && store != [] && |heights| == |store|
            && forall i | 0 <= i < |heights| :: heights[i] <= MAX_HEIGHT
    ensures r.Some? ==>
      && r.value.0.Valid() && r.value.0.HeightsRecorded() && r.value.0.blocks == BuiltList(pk, store, heights)
      && r.value.1 == Basis(r.value.0.blocks) && fresh(r.value.0) && fresh(r.value.0.nodes)
  {
    hide Next, Prev, LabelAt, SkipList.Valid;
    if |store| == 0 { return None; }
    if |heights| != |store| { return None; }
    var sl := new SkipList();
    sl.heights := heights;
    for i := 0 to |store|
      invariant sl.Valid() && fresh(sl) && fresh(sl.nodes) && sl.heights == heights
      invariant |sl.blocks| == i && sl.blocks == BuiltList(pk, store[..i], heights[..i])
      invariant forall k | 0 <= k < i :: heights[k] <= MAX_HEIGHT
    {
      assert sl.n == i by { sl.LevelsShape(); }
      var ok := sl.DoInsert(pk, sl.n + 1, store[i], heights[i]);
      if !ok { return None; }
      assert store[..i + 1] == store[..i] + [store[i]] && heights[..i + 1] == heights[..i] + [heights[i]];
    }
    assert store[..|store|] == store && heights[..|store|] == heights;
    assert HeightsOf(sl.blocks) == heights;
    var basis := sl.StartLabel();
    return Some((sl, basis));
  }
}
