/** Deriving the basis of the updated list from a proof taken before the update. */
module SkipListUpdates {
  import opened SkipListLabels
  import opened SkipListProofs

  // ------------------------------------------------------------------ the updates themselves

  function Insert(s: seq<Block>, pos: nat, b: Block): seq<Block>
    requires 1 <= pos <= |s| + 1
  {
    s[..pos - 1] + [b] + s[pos - 1..]
  }

  function Delete(s: seq<Block>, pos: nat): seq<Block>
    requires 1 <= pos <= |s|
  {
    s[..pos - 1] + s[pos..]
  }

  function Modify(s: seq<Block>, pos: nat, tag: nat): seq<Block>
    requires 1 <= pos <= |s|
  {
    s[pos - 1 := s[pos - 1].(tag := tag)]
  }

  // ------------------------------------------------------------------ the client's folds

  /** Data blocks left of the predecessor on level l, as the proof claims it. */
  function PassedAt(steps: seq<ProofStep>, l: int): int {
    if steps == [] then 0
    else (if steps[0].right && steps[0].level >= l then steps[0].rank else 0) + PassedAt(steps[1..], l)
  }

  /** The label of the node on the path, and the label of the new tower's node, both after the insert. */
  datatype InsertState = InsertState(gamma: Label, newNode: Label)

  function InsertStart(proof: BlockProof, h: int, tag: Tag): InsertState {
    var newElem := Raw(ZeroEntry(1, tag));
    var newNode := Hash2(newElem, proof.targetRightVal);
    InsertState(Hash2(Raw(proof.target), if h >= 2 then newElem else newNode), newNode)
  }

  function InsertStep(all: seq<ProofStep>, pos: int, h: int, st: InsertState, step: ProofStep): InsertState {
    if step.right then
      st.(gamma := if step.level == 0 then Hash2(step.sibLabel, st.gamma)
                   else Hash4(step.level, step.rank, step.sibLabel, st.gamma))
    else if step.level >= h then
      if step.towerPassthrough then st
      else st.(gamma := Hash4(step.level, step.rank + 1, st.gamma, step.sibLabel))
    else
      var before := pos - 1 - PassedAt(all, step.level);
      var after := step.rank - before;
      var newNode := if step.towerPassthrough then st.newNode
                     else Hash4(step.level, 1 + after, st.newNode, step.sibLabel);
      InsertState(if step.level == h - 1 then Hash4(step.level, before, st.gamma, newNode) else st.gamma, newNode)
  }

  function InsertFold(all: seq<ProofStep>, rest: seq<ProofStep>, pos: int, h: int, st: InsertState): InsertState
    decreases rest
  {
    if rest == [] then st else InsertFold(all, rest[1..], pos, h, InsertStep(all, pos, h, st, rest[0]))
  }

  function BasisAfterInsert(proof: BlockProof, pos: int, h: int, tag: Tag): Label {
    InsertFold(proof.steps, proof.steps, pos, h, InsertStart(proof, h, tag)).gamma
  }

  // ------------------------------------------------------------------ what an insert leaves alone

  lemma {:induction false} InsertSpans(s: seq<Block>, pos: nat, b: Block)
    requires 1 <= pos <= |s| + 1
    ensures forall k: nat | k < pos ::
              Height(Insert(s, pos, b), k) == Height(s, k) && Elem(Insert(s, pos, b), k) == Elem(s, k)
    ensures forall k: nat | pos <= k <= |s| + 1 ::
              Height(Insert(s, pos, b), k + 1) == Height(s, k) && Elem(Insert(s, pos, b), k + 1) == Elem(s, k)
    ensures |Insert(s, pos, b)| == |s| + 1 && Insert(s, pos, b)[pos - 1] == b
    ensures Height(Insert(s, pos, b), pos) == b.height
    ensures Elem(Insert(s, pos, b), pos) == ZeroEntry(1, Tag(b.tag))
  {
  }

  lemma {:induction false} InsertWellFormed(s: seq<Block>, pos: nat, b: Block)
    requires WellFormed(s) && 1 <= pos <= |s| + 1 && 1 <= b.height <= MAX_HEIGHT
    ensures WellFormed(Insert(s, pos, b))
  {
  }

  /** Left of the insertion point nothing changes as long as the right neighbour also lies left of it. */
  lemma {:induction false} LeftOfInsert(s: seq<Block>, pos: nat, b: Block, l: nat, u: nat)
    requires 1 <= pos <= |s| + 1 && WellFormed(s)
    requires l < MAX_HEIGHT && u < pos && l < Height(s, u) && Next(s, l, u) < pos
    ensures var s' := Insert(s, pos, b);
            l < Height(s', u) && Next(s', l, u) == Next(s, l, u) && Rank(s', l, u) == Rank(s, l, u)
            && DownValue(s', l, u) == DownValue(s, l, u)
  {
    hide LabelAt, Next;
    var s' := Insert(s, pos, b);
    InsertSpans(s, pos, b);
    var w := Next(s, l, u);
    assert SameSpan(s, s', 0, u, w);
    NextSameSpan(s, s', 0, u, w, l, u);
    DownValueLocal(s, s', 0, l, u);
  }

  /** Everything at or right of the insertion point moves one position and keeps its labels. */
  lemma {:induction false} RightOfInsert(s: seq<Block>, pos: nat, b: Block, l: nat, w: nat)
    requires 1 <= pos <= w <= |s| + 1
    requires l < MAX_HEIGHT && l < Height(s, w)
    ensures var s' := Insert(s, pos, b);
            l < Height(s', w + 1) && LabelAt(s', l, w + 1) == LabelAt(s, l, w)
  {
    InsertSpans(s, pos, b);
    assert SameSpan(s, Insert(s, pos, b), 1, w, |s| + 1);
    LabelLocal(s, Insert(s, pos, b), 1, l, w, |s| + 1);
  }

  /** The neighbours around the insertion point: i is the last node of level l before pos. */
  lemma {:induction false} NextAcrossInsert(s: seq<Block>, pos: nat, b: Block, l: nat, i: nat)
    requires 1 <= pos <= |s| + 1 && i < pos && l < MAX_HEIGHT && l < Height(s, i)
    requires forall k | i < k < pos :: Height(s, k) <= l
    ensures var s' := Insert(s, pos, b); var w := Next(s, l, i);
            && w >= pos
            && Next(s', l, i) == (if l < b.height then pos else w + 1)
            && Next(s', l, pos) == w + 1
            && Tower(s', l, w + 1) == Tower(s, l, w)
  {
    var s' := Insert(s, pos, b);
    InsertSpans(s, pos, b);
    var w := Next(s, l, i);
    forall k | pos < k < w + 1 ensures Height(s', k) <= l {
      assert Height(s', k - 1 + 1) == Height(s, k - 1);
    }
    assert Height(s', w + 1) == Height(s, w);
    NextIs(s', l, pos, w + 1);
    NextIs(s', l, i, if l < b.height then pos else w + 1);
  }

  // ------------------------------------------------------------------ the insert fold follows the new labels

  /** The new tower's own label on its level l, or its topmost label above that. */
  function NewNodeLabel(s': seq<Block>, pos: nat, l: nat): Label
    requires 1 <= pos <= |s'| && 1 <= s'[pos - 1].height <= MAX_HEIGHT
  {
    LabelAt(s', if l < s'[pos - 1].height then l else s'[pos - 1].height - 1, pos)
  }

  lemma {:induction false} InsertRightStep(s: seq<Block>, pos: nat, b: Block, all: seq<ProofStep>, l: nat, i: nat,
                                           newNode: Label)
    requires WellFormed(s) && 1 <= pos <= |s| + 1
    requires l < MAX_HEIGHT && 0 < i < pos && Height(s, i) == l + 1
    ensures var s' := Insert(s, pos, b); var u := Prev(s, l, i);
            && l < Height(s', i) && l < Height(s', u)
            && InsertStep(all, pos, b.height, InsertState(LabelAt(s', l, i), newNode), RightStep(s, l, u))
               == InsertState(LabelAt(s', l, u), newNode)
  {
    hide LabelAt, Next, Prev;
    var s' := Insert(s, pos, b);
    var u := Prev(s, l, i);
    InsertSpans(s, pos, b);
    NeighboursInverse(s, l, i);
    LeftOfInsert(s, pos, b, l, u);
    LabelUnfold(s', l, u);
  }

  lemma {:induction false} InsertDownStep(s: seq<Block>, pos: nat, b: Block, all: seq<ProofStep>, l: nat, i: nat)
    requires WellFormed(s) && 1 <= pos <= |s| + 1 && 1 <= b.height <= MAX_HEIGHT
    requires 1 <= l < MAX_HEIGHT && i < pos && l < Height(s, i)
    requires forall k | i < k < pos :: Height(s, k) <= l
    requires PassedAt(all, l) == Before(i)
    ensures var s' := Insert(s, pos, b);
            && l < Height(s', i) && s'[pos - 1] == b
            && InsertStep(all, pos, b.height,
                          InsertState(LabelAt(s', l - 1, i), NewNodeLabel(s', pos, l - 1)), DownStep(s, l, i))
               == InsertState(LabelAt(s', l, i), NewNodeLabel(s', pos, l))
  {
    hide LabelAt, Next, Prev, PassedAt, Insert;
    assert Insert(s, pos, b)[pos - 1] == b by { InsertSpans(s, pos, b); }
    if l < b.height {
      NewTowerLabels(s, pos, b, l, i);
    } else {
      AbsorbedLabel(s, pos, b, l, i);
    }
  }

  /** At and above the new tower's height: the predecessor's span grows by one block. */
  lemma {:induction false} AbsorbedLabel(s: seq<Block>, pos: nat, b: Block, l: nat, i: nat)
    requires WellFormed(s) && 1 <= pos <= |s| + 1 && 1 <= b.height <= l < MAX_HEIGHT
    requires i < pos && l < Height(s, i)
    requires forall k | i < k < pos :: Height(s, k) <= l
    ensures var s' := Insert(s, pos, b); var w := Next(s, l, i);
            && l < Height(s', i) && l < Height(s, w)
            && LabelAt(s', l, i) == (if Tower(s, l, w) then LabelAt(s', l - 1, i)
                                     else Hash4(l, Rank(s, l, i) + 1, LabelAt(s', l - 1, i), LabelAt(s, l, w)))
  {
    hide LabelAt, Next, Prev, Insert;
    var s' := Insert(s, pos, b);
    InsertSpans(s, pos, b);
    NextAcrossInsert(s, pos, b, l, i);
    RightOfInsert(s, pos, b, l, Next(s, l, i));
    LabelUnfold(s', l, i);
  }

  /** Below the new tower's height: the predecessor and the new node split the predecessor's old span. */
  lemma {:induction false} NewTowerLabels(s: seq<Block>, pos: nat, b: Block, l: nat, i: nat)
    requires WellFormed(s) && 1 <= pos <= |s| + 1 && 1 <= l < b.height <= MAX_HEIGHT
    requires i < pos && l < Height(s, i)
    requires forall k | i < k < pos :: Height(s, k) <= l
    ensures var s' := Insert(s, pos, b); var w := Next(s, l, i);
            && l < Height(s', i) && l < Height(s', pos) && l < Height(s, w)
            && LabelAt(s', l, pos) == (if Tower(s, l, w) then LabelAt(s', l - 1, pos)
                                       else Hash4(l, w - pos + 1, LabelAt(s', l - 1, pos), LabelAt(s, l, w)))
            && LabelAt(s', l, i) == (if l + 1 < b.height then LabelAt(s', l - 1, i)
                                     else Hash4(l, pos - 1 - Before(i), LabelAt(s', l - 1, i), LabelAt(s', l, pos)))
  {
    hide LabelAt, Next, Prev, Insert;
    var s' := Insert(s, pos, b);
    var w := Next(s, l, i);
    InsertSpans(s, pos, b);
    NextAcrossInsert(s, pos, b, l, i);
    RightOfInsert(s, pos, b, l, w);
    LabelUnfold(s', l, i);
    LabelUnfold(s', l, pos);
  }

  /** From any node on the path to the insertion point, the fold carries the new labels up to the new basis. */
  lemma {:induction false} InsertFoldCorrect(s: seq<Block>, pos: nat, b: Block, done: seq<ProofStep>, l: nat, i: nat)
    requires WellFormed(s) && 1 <= pos <= |s| + 1 && 1 <= b.height <= MAX_HEIGHT
    requires l < MAX_HEIGHT && i < pos && l < Height(s, i)
    requires forall k | i < k < pos :: Height(s, k) <= l + 1
    requires forall k | 0 <= k < |done| :: done[k].level <= l
    ensures var s' := Insert(s, pos, b);
            && l < Height(s', i) && s'[pos - 1] == b
            && InsertFold(done + PathSteps(s, l, i), PathSteps(s, l, i), pos, b.height,
                          InsertState(LabelAt(s', l, i), NewNodeLabel(s', pos, l))).gamma == Basis(s')
    decreases MAX_HEIGHT - l, i
  {
    hide LabelAt, Next, Prev, InsertStep, NewNodeLabel, Insert, PathSteps, PassedAt;
    var s' := Insert(s, pos, b);
    InsertSpans(s, pos, b);
    PathUnfold(s, l, i);
    var all := done + PathSteps(s, l, i);
    if l + 1 < MAX_HEIGHT && Tower(s, l, i) {
      var step := DownStep(s, l + 1, i);
      assert all == (done + [step]) + PathSteps(s, l + 1, i);
      PathCountsPosition(s, l + 1, i);
      PassedAtSplit(done + [step], PathSteps(s, l + 1, i), l + 1);
      InsertDownStep(s, pos, b, all, l + 1, i);
      InsertFoldCorrect(s, pos, b, done + [step], l + 1, i);
    } else if i > 0 {
      var u := Prev(s, l, i);
      var step := RightStep(s, l, u);
      assert all == (done + [step]) + PathSteps(s, l, u);
      InsertRightStep(s, pos, b, all, l, i, NewNodeLabel(s', pos, l));
      InsertFoldCorrect(s, pos, b, done + [step], l, u);
    }
  }

  /** Steps below level l count nothing towards it, steps on or above it count fully. */
  lemma {:induction false} PassedAtSplit(below: seq<ProofStep>, above: seq<ProofStep>, l: nat)
    requires forall k | 0 <= k < |below| :: below[k].right ==> below[k].level < l
    requires forall k | 0 <= k < |above| :: above[k].level >= l
    ensures PassedAt(below + above, l) == RightRanks(above)
  {
    if below != [] {
      assert (below + above)[1..] == below[1..] + above;
      PassedAtSplit(below[1..], above, l);
    } else if above != [] {
      assert below + above == above == [] + above;
      assert [] + above[1..] == above[1..];
      PassedAtSplit([], above[1..], l);
    }
  }

  /** The client's fold over the pre-insert proof gives exactly the basis of the list after the insert. */
  lemma {:induction false} BasisAfterInsertCorrect(s: seq<Block>, pos: nat, b: Block, isTower: bool)
    requires WellFormed(s) && 1 <= pos <= |s| + 1 && 1 <= b.height <= MAX_HEIGHT
    ensures BasisAfterInsert(PathProof(s, pos - 1, isTower), pos, b.height, Tag(b.tag)) == Basis(Insert(s, pos, b))
  {
    hide LabelAt, Next, Prev;
    var s' := Insert(s, pos, b);
    var i := pos - 1;
    InsertSpans(s, pos, b);
    NextAcrossInsert(s, pos, b, 0, i);
    var w := Next(s, 0, i);
    LabelUnfold(s', 0, i);
    LabelUnfold(s', 0, pos);
    NextIs(s, 0, i, pos);
    if !Tower(s, 0, w) {
      RightOfInsert(s, pos, b, 0, w);
    }
    assert RightValue(s', pos) == RightValue(s, i);
    assert InsertStart(PathProof(s, i, isTower), b.height, Tag(b.tag))
        == InsertState(LabelAt(s', 0, i), NewNodeLabel(s', pos, 0));
    InsertFoldCorrect(s, pos, b, [], 0, i);
    assert [] + PathSteps(s, 0, i) == PathSteps(s, 0, i);
  }

  // ------------------------------------------------------------------ neighbours and ranks after an insert

  /** Where an old position is found after an insert at pos. */
  function Moved(pos: nat, i: nat): nat {
    if i < pos then i else i + 1
  }

  /** An insert relinks, on each level its tower reaches, only the last node before pos and the first at or after it;
      every rank keeps its value except the predecessor's, which is split, or grows by one above the tower. */
  lemma {:induction false} NextAfterInsert(s: seq<Block>, pos: nat, b: Block, l: nat, i: nat)
    requires WellFormed(s) && 1 <= pos <= |s| + 1 && l < MAX_HEIGHT && i <= |s| + 1
    requires l < Height(s, i)
    ensures var s' := Insert(s, pos, b); var p := Prev(s, l, pos);
            && Height(s', Moved(pos, i)) == Height(s, i)
            && (i <= |s| ==>
                  Next(s', l, Moved(pos, i)) == if i == p && l < b.height then pos else Moved(pos, Next(s, l, i)))
            && (i != p ==> Rank(s', l, Moved(pos, i)) == Rank(s, l, i))
            && (i == p ==> Rank(s', l, i) == if l < b.height then pos - 1 - Before(p) else Rank(s, l, i) + 1)
  {
    hide LabelAt, Insert, Next, Prev;
    var s' := Insert(s, pos, b);
    var p := Prev(s, l, pos);
    InsertSpans(s, pos, b);
    if i == p {
      NextAcrossInsert(s, pos, b, l, p);
    } else if i < p {
      LeftOfInsert(s, pos, b, l, i);
    } else if i <= |s| {
      assert SameSpan(s, s', 1, i, |s| + 1);
      NextSameSpan(s, s', 1, i, |s| + 1, l, i);
    }
  }

  lemma {:induction false} PrevAfterInsert(s: seq<Block>, pos: nat, b: Block, l: nat, i: nat)
    requires 1 <= pos <= |s| + 1 && l < MAX_HEIGHT && 1 <= i <= |s| + 1
    requires l < Height(s, i)
    ensures var s' := Insert(s, pos, b); var p := Prev(s, l, pos); var w := Next(s, l, p);
            Prev(s', l, Moved(pos, i)) == if i == w && l < b.height then pos else Moved(pos, Prev(s, l, i))
  {
    hide LabelAt, Insert, Next, Prev;
    var s' := Insert(s, pos, b);
    InsertSpans(s, pos, b);
    var p := Prev(s, l, pos);
    var w := Next(s, l, p);
    var u := Prev(s, l, i);
    if i == w && l < b.height {
      assert forall k | pos < k < i + 1 :: Height(s', k) == Height(s, k - 1);
      PrevIs(s', l, pos, i + 1);
    } else {
      if u < pos <= i {
        PrevIs(s, l, u, pos);
        NextIs(s, l, u, i);
      }
      forall k | Moved(pos, u) < k < Moved(pos, i) ensures Height(s', k) <= l {
        if k > pos {
          assert Height(s', k - 1 + 1) == Height(s, k - 1);
        }
      }
      PrevIs(s', l, Moved(pos, u), Moved(pos, i));
    }
  }

  lemma {:induction false} PrevAcrossInsert(s: seq<Block>, pos: nat, b: Block, l: nat)
    requires 1 <= pos <= |s| + 1 && l < MAX_HEIGHT
    ensures Prev(Insert(s, pos, b), l, pos) == Prev(s, l, pos)
  {
    hide Insert, Next, Prev;
    InsertSpans(s, pos, b);
    PrevIs(Insert(s, pos, b), l, Prev(s, l, pos), pos);
  }

  /** The new tower's node sits between the two. */
  lemma {:induction false} NewNodeNeighbours(s: seq<Block>, pos: nat, b: Block, l: nat)
    requires 1 <= pos <= |s| + 1 && l < MAX_HEIGHT && l < b.height
    ensures var s' := Insert(s, pos, b); var p := Prev(s, l, pos); var w := Next(s, l, p);
            && Height(s', pos) == b.height
            && Next(s', l, pos) == w + 1 && Prev(s', l, pos) == p && Rank(s', l, pos) == w - pos + 1
  {
    hide LabelAt, Insert, Next, Prev;
    InsertSpans(s, pos, b);
    NextAcrossInsert(s, pos, b, l, Prev(s, l, pos));
    PrevIs(Insert(s, pos, b), l, Prev(s, l, pos), pos);
  }
}
