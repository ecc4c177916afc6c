/** Where the insert fold reads passthrough steps, which no hash covers: the one level on which it turns into the new
    tower, and the chain of hashes it computes otherwise. */
module SkipListTurns {
  import opened SkipListLabels
  import opened SkipListProofs
  import opened SkipListUpdates
  import opened SkipListModify
  import opened SkipListSoundness
  import opened SkipListUpdateSoundness

  // ------------------------------------------------------------------ the turn

  /** The first down step on level top comes after all hashed steps below that level and before all others, and is the
      only down step there. */
  predicate Turns(steps: seq<ProofStep>, top: int) {
    && steps != []
    && if !steps[0].right && steps[0].level == top then StaysAbove(steps[1..], top)
       else (Passthrough(steps[0]) || steps[0].level < top) && Turns(steps[1..], top)
  }

  /** No step below level top, and no down step on it; passthroughs elsewhere do not matter. */
  predicate StaysAbove(steps: seq<ProofStep>, top: int) {
    steps == [] || (IsAbove(steps[0], top) && StaysAbove(steps[1..], top))
  }

  predicate IsAbove(step: ProofStep, top: int) {
    if Passthrough(step) then step.level != top
    else if step.right then step.level >= top
    else step.level > top
  }

  predicate NoDownOn(steps: seq<ProofStep>, level: int) {
    forall k | 0 <= k < |steps| && !steps[k].right :: steps[k].level != level
  }

  /** The insert of a tower of height h meets the steps it needs: no down step at all on level 0 for a plateau, and one
      turn on the tower's top level otherwise. */
  predicate Placed(steps: seq<ProofStep>, h: int) {
    if h == 1 then NoDownOn(steps, 0) else Turns(steps, h - 1)
  }

  lemma {:induction false} StaircaseTurns(steps: seq<ProofStep>, l: int, top: int)
    requires Staircase(steps, l) && top < MAX_HEIGHT
    ensures l < top ==> Turns(steps, top)
    ensures l >= top ==> StaysAbove(steps, top)
  {
    if steps != [] {
      StaircaseTurns(steps[1..], if steps[0].right then l else l + 1, top);
    }
  }

  lemma {:induction false} StaircasePlaced(steps: seq<ProofStep>, h: int)
    requires Staircase(steps, 0) && 1 <= h <= MAX_HEIGHT
    ensures Placed(steps, h)
  {
    StaircaseTurns(steps, 0, h - 1);
    StaircaseLevels(steps, 0);
  }

  // ------------------------------------------------------------------ what the insert fold sees of a path

  /** Hashed down steps lie above level 0. */
  predicate PlainsAbove(steps: seq<ProofStep>) {
    steps == [] || ((steps[0].right || Passthrough(steps[0]) || steps[0].level >= 1) && PlainsAbove(steps[1..]))
  }

  lemma {:induction false} PlainsInTrace(steps: seq<ProofStep>)
    ensures PlainsAbove(Trace(steps)) == PlainsAbove(steps)
  {
    if steps != [] {
      PlainsInTrace(steps[1..]);
      if !Passthrough(steps[0]) {
        assert ([Seen(steps[0])] + Trace(steps[1..]))[1..] == Trace(steps[1..]);
      }
    }
  }

  lemma {:induction false} StaircasePlains(steps: seq<ProofStep>, l: int)
    requires Staircase(steps, l) && l >= 0
    ensures PlainsAbove(steps)
  {
    if steps != [] {
      StaircasePlains(steps[1..], if steps[0].right then l else l + 1);
    }
  }

  /** The hashed steps, and the passthroughs on level top. */
  function Core(steps: seq<ProofStep>, top: int): seq<ProofStep> {
    if steps == [] then []
    else if Passthrough(steps[0]) && steps[0].level != top then Core(steps[1..], top)
    else [Seen(steps[0])] + Core(steps[1..], top)
  }

  lemma {:induction false} PassedAtCore(steps: seq<ProofStep>, top: int, l: int)
    requires l >= 1
    ensures PassedAt(Core(steps, top), l) == PassedAt(steps, l)
  {
    if steps != [] {
      PassedAtCore(steps[1..], top, l);
      if !(Passthrough(steps[0]) && steps[0].level != top) {
        assert ([Seen(steps[0])] + Core(steps[1..], top))[1..] == Core(steps[1..], top);
      }
    }
  }

  lemma {:induction false} InsertFoldCore(all: seq<ProofStep>, rest: seq<ProofStep>, pos: int, h: int, st: InsertState)
    requires h >= 2 && PlainsAbove(rest)
    ensures InsertFold(all, rest, pos, h, st) == InsertFold(Core(all, h - 1), Core(rest, h - 1), pos, h, st)
    decreases rest
  {
    hide PassedAt;
    if rest != [] {
      var step, core := rest[0], Core(rest[1..], h - 1);
      if step.level >= 1 {
        PassedAtCore(all, h - 1, step.level);
      }
      if !(Passthrough(step) && step.level != h - 1) {
        assert ([Seen(step)] + core)[1..] == core;
        assert InsertStep(all, pos, h, st, step) == InsertStep(Core(all, h - 1), pos, h, st, Seen(step));
      }
      InsertFoldCore(all, rest[1..], pos, h, InsertStep(all, pos, h, st, step));
    }
  }

  /** A plateau block splits no rank: neither the claimed position nor the ranks enter its fold. */
  lemma {:induction false} PlateauFold(all: seq<ProofStep>, rest: seq<ProofStep>, all': seq<ProofStep>, pos: int,
                                       pos': int, st: InsertState)
    requires NoDownOn(rest, 0) && PlainsAbove(rest)
    ensures InsertFold(all, rest, pos, 1, st).gamma == InsertFold(all', Trace(rest), pos', 1, st).gamma
    decreases rest
  {
    if rest != [] {
      var step, trace := rest[0], Trace(rest[1..]);
      assert forall k | 0 <= k < |rest[1..]| :: rest[1..][k] == rest[k + 1];
      PlateauFold(all, rest[1..], all', pos, pos', InsertStep(all, pos, 1, st, step));
      if !Passthrough(step) {
        assert ([Seen(step)] + trace)[1..] == trace;
      }
    }
  }

  lemma {:induction false} CoreAbove(steps: seq<ProofStep>, top: int)
    requires StaysAbove(steps, top)
    ensures Core(steps, top) == Trace(steps)
    ensures Trace(steps) != [] ==> IsAbove(Trace(steps)[0], top)
  {
    if steps != [] {
      CoreAbove(steps[1..], top);
    }
  }

  /** Two proofs that turn on one level and hash the same steps have the same core. */
  lemma {:induction false} SameTraceSameCore(a: seq<ProofStep>, b: seq<ProofStep>, top: int)
    requires Turns(a, top) && Turns(b, top) && Trace(a) == Trace(b)
    ensures Core(a, top) == Core(b, top)
    decreases |a| + |b|
  {
    if Passthrough(a[0]) && a[0].level != top {
      SameTraceSameCore(a[1..], b, top);
    } else if Passthrough(b[0]) && b[0].level != top {
      SameTraceSameCore(a, b[1..], top);
    } else {
      var turnA, turnB := !a[0].right && a[0].level == top, !b[0].right && b[0].level == top;
      if turnA { CoreAbove(a[1..], top); }
      if turnB { CoreAbove(b[1..], top); }
      assert !Passthrough(a[0]) ==> Trace(a)[0] == Seen(a[0]) && Trace(a)[1..] == Trace(a[1..]);
      assert !Passthrough(b[0]) ==> Trace(b)[0] == Seen(b[0]) && Trace(b)[1..] == Trace(b[1..]);
      if !turnA && !turnB {
        SameTraceSameCore(a[1..], b[1..], top);
      }
    }
  }

  /** So the insert fold does not tell them apart. */
  lemma {:induction false} SameTraceSameInsert(a: BlockProof, b: BlockProof, pos: int, pos': int, h: int, tag: Tag)
    requires h >= 1 && Placed(a.steps, h) && Placed(b.steps, h) && Trace(a.steps) == Trace(b.steps)
    requires PlainsAbove(a.steps) && a.target == b.target && a.targetRightVal == b.targetRightVal
    requires h == 1 || pos == pos'
    ensures BasisAfterInsert(a, pos, h, tag) == BasisAfterInsert(b, pos', h, tag)
  {
    hide InsertFold, Trace, Core;
    PlainsInTrace(a.steps);
    PlainsInTrace(b.steps);
    var st := InsertStart(a, h, tag);
    if h == 1 {
      PlateauFold(a.steps, a.steps, a.steps, pos, pos, st);
      PlateauFold(b.steps, b.steps, a.steps, pos', pos, st);
    } else {
      InsertFoldCore(a.steps, a.steps, pos, h, st);
      InsertFoldCore(b.steps, b.steps, pos, h, st);
      SameTraceSameCore(a.steps, b.steps, h - 1);
    }
  }

  // ------------------------------------------------------------------ the insert fold as a chain of hashes

  /** The new tower's node after one step. */
  function NextNode(all: seq<ProofStep>, pos: int, h: int, newNode: Label, step: ProofStep): Label {
    InsertStep(all, pos, h, InsertState(Null, newNode), step).newNode
  }

  /** The step that hashes what an insert step hashes, if it hashes anything. */
  function ChainStep(all: seq<ProofStep>, pos: int, h: int, newNode: Label, step: ProofStep): seq<ProofStep> {
    if step.right then [step]
    else if step.level >= h then
      if step.towerPassthrough then [] else [step.(rank := step.rank + 1)]
    else if step.level == h - 1 then
      [ProofStep(step.level, pos - 1 - PassedAt(all, step.level), false, false, NextNode(all, pos, h, newNode, step))]
    else []
  }

  function Chain(all: seq<ProofStep>, rest: seq<ProofStep>, pos: int, h: int, newNode: Label): seq<ProofStep>
    decreases rest
  {
    if rest == [] then []
    else
      var next := NextNode(all, pos, h, newNode, rest[0]);
      ChainStep(all, pos, h, newNode, rest[0]) + Chain(all, rest[1..], pos, h, next)
  }

  lemma {:induction false} ChainFolds(all: seq<ProofStep>, rest: seq<ProofStep>, pos: int, h: int, st: InsertState)
    requires h >= 2
    ensures FoldSteps(st.gamma, Chain(all, rest, pos, h, st.newNode)) == InsertFold(all, rest, pos, h, st).gamma
    ensures RightRanks(Chain(all, rest, pos, h, st.newNode)) == RightRanks(rest)
    ensures Slack(Chain(all, rest, pos, h, st.newNode)) == Slack(rest)
    decreases rest
  {
    hide PassedAt;
    if rest != [] {
      var step := rest[0];
      var st' := InsertStep(all, pos, h, st, step);
      var link, tail := ChainStep(all, pos, h, st.newNode, step), Chain(all, rest[1..], pos, h, st'.newNode);
      assert NextNode(all, pos, h, st.newNode, step) == st'.newNode;
      ChainFolds(all, rest[1..], pos, h, st');
      if link == [] {
        assert link + tail == tail;
      } else {
        assert link == [link[0]] && (link + tail)[1..] == tail;
        assert FoldStep(st.gamma, link[0]) == st'.gamma;
      }
    }
  }

  /** How many hashes lie on top of a level-0 label, going down. */
  function Depth(g: Label): nat {
    match g
    case Hash4(_, _, down, _) => 1 + Depth(down)
    case _ => 0
  }

  /** The hashed down steps on and below level top. */
  function Low(steps: seq<ProofStep>, top: int): nat {
    if steps == [] then 0
    else (if !steps[0].right && !Passthrough(steps[0]) && steps[0].level <= top then 1 else 0) + Low(steps[1..], top)
  }

  lemma {:induction false} LowInTrace(steps: seq<ProofStep>, top: int)
    ensures Low(Trace(steps), top) == Low(steps, top)
  {
    if steps != [] {
      LowInTrace(steps[1..], top);
      if !Passthrough(steps[0]) {
        assert ([Seen(steps[0])] + Trace(steps[1..]))[1..] == Trace(steps[1..]);
      }
    }
  }

  /** Right steps below level top, then one down step on it whose sibling has the given depth, then nothing below. */
  predicate TurnedChain(c: seq<ProofStep>, top: int, depth: nat) {
    && c != []
    && if c[0].right then c[0].level < top && TurnedChain(c[1..], top, depth)
       else c[0].level == top && Depth(c[0].sibLabel) == depth && ChainAbove(c[1..], top)
  }

  predicate ChainAbove(c: seq<ProofStep>, top: int) {
    c == [] || ((if c[0].right then c[0].level >= top else c[0].level > top) && ChainAbove(c[1..], top))
  }

  /** The rank of the first down step. */
  function TurnRank(c: seq<ProofStep>): int {
    if c == [] then 0 else if c[0].right then TurnRank(c[1..]) else c[0].rank
  }

  lemma {:induction false} ChainTrace(link: seq<ProofStep>, tail: seq<ProofStep>)
    requires |link| <= 1 && (link != [] ==> !Passthrough(link[0]))
    ensures Trace(link + tail) == if link == [] then Trace(tail) else [Seen(link[0])] + Trace(tail)
    ensures link != [] ==> Trace(link + tail)[1..] == Trace(tail)
  {
    if link == [] {
      assert link + tail == tail;
    } else {
      assert link == [link[0]];
      TraceStep(link[0], tail);
    }
  }

  /** What one step adds to the chain, and to the depth of the new tower's node. */
  lemma {:induction false} ChainStepFacts(all: seq<ProofStep>, pos: int, h: int, newNode: Label, step: ProofStep)
    requires h >= 2
    ensures var link := ChainStep(all, pos, h, newNode, step); var next := NextNode(all, pos, h, newNode, step);
            && |link| <= 1 && (link != [] ==> !Passthrough(link[0]))
            && Depth(next)
               == Depth(newNode) + (if !step.right && !step.towerPassthrough && step.level < h then 1 else 0)
            && (step.right ==> link == [step])
            && (!step.right && step.level == h - 1 ==>
                  && link != [] && !link[0].right && link[0].level == h - 1 && link[0].sibLabel == next
                  && link[0].rank == pos - 1 - PassedAt(all, h - 1))
            && (!step.right && step.level < h - 1 ==> link == [])
            && (!step.right && step.level >= h ==>
                  if step.towerPassthrough then link == []
                  else link != [] && !link[0].right && link[0].level == step.level)
  {
    hide PassedAt;
  }

  lemma {:induction false} AboveIff(all: seq<ProofStep>, rest: seq<ProofStep>, pos: int, h: int, newNode: Label)
    requires h >= 2
    ensures StaysAbove(rest, h - 1)
            <==> ChainAbove(Trace(Chain(all, rest, pos, h, newNode)), h - 1) && Low(rest, h - 1) == 0
    decreases rest
  {
    hide PassedAt, ChainStep, NextNode, Depth;
    if rest != [] {
      var step, next := rest[0], NextNode(all, pos, h, newNode, rest[0]);
      var link, tail := ChainStep(all, pos, h, newNode, step), Chain(all, rest[1..], pos, h, next);
      ChainStepFacts(all, pos, h, newNode, step);
      ChainTrace(link, tail);
      AboveIff(all, rest[1..], pos, h, next);
    }
  }

  /** The chain shows whether the proof turns: the depth of the sibling at the turn counts the hashed steps before it.
      */
  lemma {:induction false} TurnsIff(all: seq<ProofStep>, rest: seq<ProofStep>, pos: int, h: int, newNode: Label)
    requires h >= 2
    ensures var c := Trace(Chain(all, rest, pos, h, newNode));
            && (Turns(rest, h - 1) <==> TurnedChain(c, h - 1, Depth(newNode) + Low(rest, h - 1)))
            && (Turns(rest, h - 1) ==> TurnRank(c) == pos - 1 - PassedAt(all, h - 1))
    decreases rest
  {
    hide PassedAt, ChainStep, NextNode, Depth;
    if rest != [] {
      var step, next := rest[0], NextNode(all, pos, h, newNode, rest[0]);
      var link, tail := ChainStep(all, pos, h, newNode, step), Chain(all, rest[1..], pos, h, next);
      ChainStepFacts(all, pos, h, newNode, step);
      ChainTrace(link, tail);
      TurnsIff(all, rest[1..], pos, h, next);
      AboveIff(all, rest[1..], pos, h, next);
    }
  }
}
