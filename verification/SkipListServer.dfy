/** A server that performs one update after the other on its linked list, against a list built from scratch. */
module SkipListServer {
  import opened SkipListLabels
  import opened SkipListProtocol
  import opened SkipListRuns
  import opened SkipList
  import opened Options

  /** Any run, refused updates included, on the linked structure. */
  method PlayRun(sl: SkipList, pk: PublicKey, ops: seq<UpdateOp>) returns (answers: seq<Option<UpdateResult>>)
    requires sl.Valid() && sl.HeightsRecorded() && pk.n > 1
    modifies sl, sl.nodes
    ensures sl.Valid() && sl.HeightsRecorded() && fresh(sl.nodes - old(sl.nodes))
    ensures old(WellFormed(sl.blocks))
    ensures sl.blocks == old(ServerRun(pk, sl.blocks, ops))
    ensures answers == old(ServerAnswers(pk, sl.blocks, ops))
  {
    hide SkipList.Valid, Served, HonestResult, Performable, ServerRun, ServerAnswers, Updated;
    sl.LevelsShape();
    RunUnfold(pk, sl.blocks, ops);
    ghost var start := sl.blocks;
    answers := [];
    for i := 0 to |ops|
      invariant sl.Valid() && sl.HeightsRecorded() && fresh(sl.nodes - old(sl.nodes)) && WellFormed(sl.blocks)
      invariant ServerRun(pk, sl.blocks, ops[i..]) == ServerRun(pk, start, ops)
      invariant answers + ServerAnswers(pk, sl.blocks, ops[i..]) == ServerAnswers(pk, start, ops)
    {
      RunUnfold(pk, sl.blocks, ops[i..]);
      ServedIs(pk, sl.blocks, ops[i]);
      assert ops[i..][0] == ops[i] && ops[i..][1..] == ops[i + 1..];
      var r := sl.PerformUpdate(pk, ops[i]);
      ghost var rest := ServerAnswers(pk, sl.blocks, ops[i + 1..]);
      assert (answers + [r]) + rest == answers + ([r] + rest);
      answers := answers + [r];
    }
    RunUnfold(pk, sl.blocks, ops[|ops|..]);
  }

  lemma {:induction false} RunUnfold(pk: PublicKey, s: seq<Block>, ops: seq<UpdateOp>)
    requires pk.n > 1 && WellFormed(s)
    ensures ops == [] ==> ServerRun(pk, s, ops) == s && ServerAnswers(pk, s, ops) == []
    ensures ops != [] ==>
              && ServerRun(pk, s, ops) == ServerRun(pk, Served(pk, s, ops[0]), ops[1..])
              && ServerAnswers(pk, s, ops)
                 == [if Performable(s, ops[0]) then Some(HonestResult(s, ops[0])) else None]
                    + ServerAnswers(pk, Served(pk, s, ops[0]), ops[1..])
  {
  }

  lemma {:induction false} ServedIs(pk: PublicKey, s: seq<Block>, op: UpdateOp)
    requires pk.n > 1 && WellFormed(s)
    ensures Served(pk, s, op) == if Performable(s, op) then Updated(pk, s, op) else s
  {
  }

  /** A file is loaded, updated by any run, and loaded again as it then is: the two start labels, which agree. */
  method UpdateAndRebuild(pk: PublicKey, store: seq<nat>, heights: seq<int>, ops: seq<UpdateOp>)
    returns (r: Option<(Label, Label)>)
    requires ValidKey(pk) && forall i | 0 <= i < |heights| :: heights[i] >= 1
    ensures r.Some? <==>
            && store != [] && |heights| == |store|
            && forall i | 0 <= i < |heights| :: heights[i] <= MAX_HEIGHT
    ensures r.Some? ==> r.value.0 == r.value.1
  {
    hide SkipList.Valid, BuiltList, HeightsOf, TagsMatch, ServerAnswers;
    var built := BuildWithHeights(pk, store, heights);
    if built.None? { return None; }
    var sl := built.value.0;
    BuiltMatches(pk, store, heights);
    RunRebuilds(pk, sl.blocks, store, ops);
    var answers := PlayRun(sl, pk, ops);
    var updated := sl.StartLabel();
    var file := StoreRun(store, ops);
    if file == [] {
      var empty := new SkipList();
      assert empty.blocks == sl.blocks;
      var other := empty.StartLabel();
      return Some((updated, other));
    }
    var rebuilt := BuildWithHeights(pk, file, HeightsRun(heights, ops));
    return Some((updated, rebuilt.value.1));
  }

  lemma {:induction false} BuiltMatches(pk: PublicKey, store: seq<nat>, heights: seq<int>)
    requires pk.n > 1 && |heights| == |store|
    requires forall i | 0 <= i < |heights| :: 1 <= heights[i] <= MAX_HEIGHT
    ensures var s := BuiltList(pk, store, heights);
            WellFormed(s) && TagsMatch(pk, s, store) && HeightsOf(s) == heights
  {
  }
}
