/** The linked nodes of the skip list, level by level: what it means for a level to be linked for a block sequence, and
    the loops that relink all levels on an insert, a delete and a modify. */
module SkipListNodes {
  import opened SkipListLabels
  import opened SkipListProofs
  import opened SkipListUpdates
  import opened SkipListModify
  import opened SkipListProtocol
  import opened ModArith

  class Node {
    const level: nat
    const isSentinel: bool
    var right: Node?
    var left: Node?
    var down: Node?
    var up: Node?
    var rank: int
    var tag: Tag

    constructor (level: nat, isSentinel: bool)
      ensures this.level == level && this.isSentinel == isSentinel
      ensures right == null && left == null && down == null && up == null
      ensures rank == 0 && tag == NoTag
    {
      this.level, this.isSentinel := level, isSentinel;
      right, left, down, up, rank, tag := null, null, null, null, 0, NoTag;
    }
  }

  /** The nodes of one level by position, null where the tower does not reach it. */
  type Row = seq<Node?>

  ghost predicate RowShape(s: seq<Block>, row: Row, l: nat)
  {
    && |row| == |s| + 2
    && (forall i | 0 <= i < |row| :: row[i] != null <==> l < Height(s, i))
    && (forall i, j | 0 <= i < j < |row| :: row[i] != null ==> row[i] != row[j])
    && (forall o: Node | o in row :: o.level == l)
  }

  /** These pointers and this rank are right for the node of position i. */
  ghost predicate LinksTo(s: seq<Block>, row: Row, l: nat, i: nat, right: Node?, left: Node?, rank: int)
    requires |row| == |s| + 2 && i < |row| && l < MAX_HEIGHT
  {
    && right == (if i == |s| + 1 then null else row[Next(s, l, i)])
    && left == (if i == 0 then null else row[Prev(s, l, i)])
    && rank == Rank(s, l, i)
  }

  /** The node of position i is linked to its neighbours on its level and counts the blocks it spans. */
  ghost predicate Linked(s: seq<Block>, row: Row, l: nat, i: nat)
    requires |row| == |s| + 2 && i < |row| && l < MAX_HEIGHT && row[i] != null
    reads {row[i]}`right, {row[i]}`left, {row[i]}`rank
  {
    LinksTo(s, row, l, i, row[i].right, row[i].left, row[i].rank)
  }

  ghost predicate RowLinked(s: seq<Block>, row: Row, l: nat)
    reads row`right, row`left, row`rank
  {
    && l < MAX_HEIGHT && RowShape(s, row, l)
    && forall i | 0 <= i < |row| && row[i] != null :: Linked(s, row, l, i)
  }

  /** The node of position i on level l, null if there is none. */
  ghost function At(rows: seq<Row>, l: int, i: nat): Node? {
    if 0 <= l < |rows| && i < |rows[l]| then rows[l][i] else null
  }

  /** The node of position i on level l sits in its tower. */
  ghost predicate Stacked(s: seq<Block>, rows: seq<Row>, l: nat, i: nat)
    requires i <= |s| + 1 && At(rows, l, i) != null
    reads {At(rows, l, i)}`tag, {At(rows, l, i)}`down, {At(rows, l, i)}`up
  {
    var v := At(rows, l, i);
    && v.isSentinel == (i == 0 || i == |s| + 1)
    && v.tag == (if l == 0 then Elem(s, i).tag else NoTag)
    && v.down == At(rows, l - 1, i)
    && v.up == At(rows, l + 1, i)
  }

  ghost predicate RowIn(row: Row, nodes: set<Node>) {
    forall o: Node | o in row :: o in nodes
  }

  ghost predicate Shaped(s: seq<Block>, rows: seq<Row>, nodes: set<Node>) {
    && |rows| == MAX_HEIGHT
    && (forall l | 0 <= l < MAX_HEIGHT :: RowShape(s, rows[l], l))
    && (forall l | 0 <= l < MAX_HEIGHT :: RowIn(rows[l], nodes))
  }

  ghost predicate AllLinked(s: seq<Block>, rows: seq<Row>, nodes: set<Node>)
    requires Shaped(s, rows, nodes)
    reads nodes`right, nodes`left, nodes`rank
  {
    forall l | 0 <= l < MAX_HEIGHT :: RowLinked(s, rows[l], l)
  }

  ghost predicate AllStacked(s: seq<Block>, rows: seq<Row>, nodes: set<Node>)
    requires Shaped(s, rows, nodes)
    reads nodes`tag, nodes`down, nodes`up
  {
    forall l, i | 0 <= l < MAX_HEIGHT && 0 <= i <= |s| + 1 && At(rows, l, i) != null :: Stacked(s, rows, l, i)
  }

  // ---------------------------------------------------------------- one level of an insert or a delete

  ghost function InsertInRow(row: Row, pos: nat, v: Node?): Row
    requires 1 <= pos <= |row|
  {
    row[..pos] + [v] + row[pos..]
  }

  lemma {:induction false} InsertedRowShape(s: seq<Block>, row: Row, l: nat, pos: nat, b: Block, v: Node?)
    requires WellFormed(s) && l < MAX_HEIGHT && 1 <= pos <= |s| + 1
    requires RowShape(s, row, l)
    requires v != null <==> l < b.height
    requires v != null ==> v !in row && v.level == l
    ensures RowShape(Insert(s, pos, b), InsertInRow(row, pos, v), l)
    ensures |InsertInRow(row, pos, v)| == |row| + 1
    ensures InsertInRow(row, pos, v)[pos] == v
    ensures forall i | 0 <= i < |row| :: InsertInRow(row, pos, v)[Moved(pos, i)] == row[i]
  {
    hide Next, Prev, LabelAt, Insert;
    InsertSpans(s, pos, b);
    var s', row' := Insert(s, pos, b), InsertInRow(row, pos, v);
    forall i | 0 <= i < |row'|
      ensures row'[i] != null <==> l < Height(s', i)
    {
      if i > pos { assert Height(s', i - 1 + 1) == Height(s, i - 1); }
    }
  }

  /** The loop body of doInsert below the new tower's height: put a new node between p and w and split p's rank. */
  method SpliceNode(p: Node, w: Node, l: nat, pos: int, passed: int, below: Node?, tag: Tag) returns (nn: Node)
    requires p.right == w && p != w
    modifies p`right, p`rank, w`left
    ensures fresh(nn) && nn.level == l && !nn.isSentinel && nn.down == below
    ensures nn.up == null
    ensures nn.tag == if l == 0 then tag else NoTag
    ensures nn.left == p && nn.right == w && p.right == nn && w.left == nn
    ensures p.rank == pos - 1 - passed
    ensures nn.rank == 1 + (old(p.rank) - (pos - 1 - passed))
  {
    var before := pos - 1 - passed;
    var after := p.rank - before;
    nn := new Node(l, false);
    nn.rank, nn.down, nn.left := 1 + after, below, p;
    if l == 0 { nn.tag := tag; }
    nn.right := w;
    p.right := nn;
    w.left := nn;
    p.rank := before;
  }

  /** After the splice the level is linked as the longer list demands. */
  method SpliceIn(p: Node, w: Node, l: nat, pos: int, passed: int, below: Node?, tag: Tag,
                  ghost s: seq<Block>, ghost s': seq<Block>, ghost row: Row)
    returns (nn: Node, ghost row': Row)
    requires WellFormed(s) && 1 <= pos <= |s| + 1 && InsertedAt(s, s', pos)
    requires l < s'[pos - 1].height
    requires RowLinked(s, row, l)
    requires p == row[Prev(s, l, pos)] && passed == Before(Prev(s, l, pos))
    requires p.right == w
    modifies p`right, p`rank, w`left
    ensures fresh(nn) && nn.level == l && !nn.isSentinel && nn.down == below
    ensures nn.up == null
    ensures nn.tag == if l == 0 then tag else NoTag
    ensures row' == InsertInRow(row, pos, nn) && RowLinked(s', row', l)
  {
    hide Next, Prev, LabelAt, Insert, InsertInRow, RowShape, LinksTo, Rank;
    ghost var b := s'[pos - 1];
    ghost var k := Prev(s, l, pos);
    RowSize(s, row, l);
    LinkedAt(s, row, l, k);
    LinkedAt(s, row, l, Next(s, l, k));
    RowDistinct(s, row, l, k, Next(s, l, k));
    assert Before(k) + p.rank == Next(s, l, k) - 1 by { RankOf(s, row, l, k); }
    nn := SpliceNode(p, w, l, pos, passed, below, tag);
    row' := InsertInRow(row, pos, nn);
    InsertedRowShape(s, row, l, pos, b, nn);
    assert LinksTo(s', row', l, pos, w, p, nn.rank) by { NewNodeLinks(s, s', row, row', l, pos); }
    forall j | 0 <= j < |row'| && row'[j] != null ensures Linked(s', row', l, j) {
      if j != pos {
        var i := if j < pos then j else j - 1;
        assert Moved(pos, i) == j && row'[j] == row[i];
        RowDistinct(s, row, l, i, k);
        RowDistinct(s, row, l, i, Next(s, l, k));
        assert old(Linked(s, row, l, i));
        SplicedLink(s, s', row, row', l, pos, i, nn, old(row[i].right), old(row[i].left), old(row[i].rank));
      }
    }
  }

  lemma {:induction false} RankOf(s: seq<Block>, row: Row, l: nat, i: nat)
    requires RowLinked(s, row, l) && i <= |s| && l < Height(s, i)
    ensures row[i] != null && Before(i) + row[i].rank == Next(s, l, i) - 1
  {
    assert Linked(s, row, l, i);
  }

  lemma {:induction false} NewNodeLinks(s: seq<Block>, s': seq<Block>, row: Row, row': Row, l: nat, pos: nat)
    requires 1 <= pos <= |s| + 1 && InsertedAt(s, s', pos) && l < s'[pos - 1].height
    requires |row| == |s| + 2 && |row'| == |row| + 1
    requires forall k | 0 <= k < |row| :: row'[Moved(pos, k)] == row[k]
    ensures var k := Prev(s, l, pos); var w := Next(s, l, k);
            LinksTo(s', row', l, pos, row[w], row[k], w - pos + 1)
  {
    hide Next, Prev, LabelAt, Insert, Rank;
    NewNodeNeighbours(s, pos, s'[pos - 1], l);
    var k := Prev(s, l, pos);
    assert row'[Moved(pos, k)] == row[k] && row'[Moved(pos, Next(s, l, k))] == row[Next(s, l, k)];
    assert Moved(pos, Next(s, l, k)) == Next(s, l, k) + 1 by { NextAcross(s, l, pos); }
  }

  lemma {:induction false} NextAcross(s: seq<Block>, l: nat, pos: nat)
    requires 1 <= pos <= |s| + 1 && l < MAX_HEIGHT
    ensures pos <= Next(s, l, Prev(s, l, pos))
  {
  }

  /** The links of an old node after a splice: only the two nodes around the gap see the new one. */
  lemma {:induction false} SplicedLink(s: seq<Block>, s': seq<Block>, row: Row, row': Row, l: nat, pos: nat, i: nat,
                                       nn: Node?, right: Node?, left: Node?, rank: int)
    requires WellFormed(s) && 1 <= pos <= |s| + 1 && InsertedAt(s, s', pos)
    requires l < MAX_HEIGHT
    requires nn != null <==> l < s'[pos - 1].height
    requires |row| == |s| + 2 && i < |row| && l < Height(s, i)
    requires LinksTo(s, row, l, i, right, left, rank)
    requires |row'| == |row| + 1 && row'[pos] == nn
    requires forall k | 0 <= k < |row| :: row'[Moved(pos, k)] == row[k]
    ensures var k := Prev(s, l, pos); var w := Next(s, l, k);
            LinksTo(s', row', l, Moved(pos, i),
                    if i == k && nn != null then nn else right,
                    if i == w && nn != null then nn else left,
                    if i != k then rank else if nn != null then pos - 1 - Before(k) else rank + 1)
  {
    hide Next, Prev, LabelAt, Insert, Rank;
    NextAfterInsert(s, pos, s'[pos - 1], l, i);
    if i >= 1 { PrevAfterInsert(s, pos, s'[pos - 1], l, i); }
  }

  ghost predicate InsertedAt(s: seq<Block>, s': seq<Block>, pos: nat) {
    1 <= pos <= |s| + 1 && |s'| == |s| + 1 && 1 <= s'[pos - 1].height <= MAX_HEIGHT && s' == Insert(s, pos, s'[pos - 1])
  }

  lemma {:induction false} RowSize(s: seq<Block>, row: Row, l: nat)
    requires RowShape(s, row, l)
    ensures |row| == |s| + 2
  {
  }

  lemma {:induction false} RowPresence(s: seq<Block>, row: Row, l: nat, i: nat)
    requires RowShape(s, row, l) && i <= |s| + 1
    ensures |row| == |s| + 2 && (row[i] != null <==> l < Height(s, i))
    ensures row[i] != null ==> row[i].level == l
  {
  }

  lemma {:induction false} RowDistinct(s: seq<Block>, row: Row, l: nat, i: nat, j: nat)
    requires RowShape(s, row, l) && i < |row| && j < |row| && row[i] != null
    ensures l < Height(s, i) && (row[i] == row[j] ==> i == j)
  {
  }

  lemma {:induction false} LinkedAt(s: seq<Block>, row: Row, l: nat, i: nat)
    requires RowLinked(s, row, l)
    requires i < |row| && l < Height(s, i)
    ensures row[i] != null && Linked(s, row, l, i)
    ensures i <= |s| ==> row[i].right != null && row[i].right == row[Next(s, l, i)]
  {
  }

  // ---------------------------------------------------------------- all levels of an insert

  ghost predicate IsPred(s: seq<Block>, rows: seq<Row>, l: nat, pos: nat, pred: Node, passed: int) {
    && l < |rows| == MAX_HEIGHT && 1 <= pos <= |s| + 1 && |rows[l]| == |s| + 2
    && pred == rows[l][Prev(s, l, pos)] && passed == Before(Prev(s, l, pos))
  }

  /** A tower under construction: linked up and down, tagged at its foot. */
  ghost predicate TowerLinked(tower: seq<Node>, tag: Tag)
    reads tower`tag, tower`down, tower`up
  {
    forall k | 0 <= k < |tower| :: TowerNode(tower, tag, k)
  }

  ghost predicate TowerNode(tower: seq<Node>, tag: Tag, k: nat)
    requires k < |tower|
    reads tower`tag, tower`down, tower`up
  {
    && tower[k].level == k && !tower[k].isSentinel
    && tower[k].tag == (if k == 0 then tag else NoTag)
    && tower[k].down == (if k == 0 then null else tower[k - 1])
    && tower[k].up == (if k + 1 < |tower| then tower[k + 1] else null)
  }

  /** Levels below l are linked for s', the others still for s. */
  ghost predicate Mixed(s: seq<Block>, s': seq<Block>, rows: seq<Row>, l: nat)
    reads *
  {
    && |rows| == MAX_HEIGHT
    && (forall k | 0 <= k < l && k < MAX_HEIGHT :: RowLinked(s', rows[k], k))
    && (forall k | l <= k < MAX_HEIGHT :: RowLinked(s, rows[k], k))
  }

  lemma {:induction false} MixedLevels(s: seq<Block>, s': seq<Block>, rows: seq<Row>, l: nat)
    requires Mixed(s, s', rows, l)
    ensures forall k | 0 <= k < MAX_HEIGHT :: RowLevel(rows[k], k)
  {
    hide Next, Prev, LabelAt, LinksTo;
    forall k | 0 <= k < MAX_HEIGHT ensures RowLevel(rows[k], k) {
      assert RowLinked(if k < l then s' else s, rows[k], k);
    }
  }

  ghost predicate RowLevel(row: Row, l: nat) {
    forall o: Node | o in row :: o.level == l
  }

  /** One round of doInsert's first loop, seen from the whole structure. */
  method SpliceLevel(p: Node, l: nat, pos: int, passed: int, below: Node?, tag: Tag,
                     ghost s: seq<Block>, ghost s': seq<Block>, ghost rows: seq<Row>, ghost tower: seq<Node>)
    returns (nn: Node, ghost rows': seq<Row>)
    requires WellFormed(s) && 1 <= pos <= |s| + 1 && InsertedAt(s, s', pos)
    requires l < s'[pos - 1].height
    requires Mixed(s, s', rows, l) && p.right != null && p.level == l
    requires p.right.level == l
    requires p == rows[l][Prev(s, l, pos)] && passed == Before(Prev(s, l, pos))
    requires |tower| == l && TowerLinked(tower, tag)
    requires below == (if l == 0 then null else tower[l - 1])
    modifies p`right, p`rank, {p.right}`left, (if below == null then {} else {below})`up
    ensures fresh(nn) && TowerLinked(tower + [nn], tag)
    ensures rows' == rows[l := InsertInRow(rows[l], pos, nn)]
    ensures Mixed(s, s', rows', l + 1)
  {
    hide Next, Prev, LabelAt, Insert, InsertInRow, RowLinked;
    ghost var row';
    MixedLevels(s, s', rows, l);
    nn, row' := SpliceIn(p, p.right, l, pos, passed, below, tag, s, s', rows[l]);
    if below != null { below.up := nn; }
    forall k | 0 <= k < |tower| + 1 ensures TowerNode(tower + [nn], tag, k) {
      if k < |tower| {
        assert old(TowerNode(tower, tag, k)) && old(TowerNode(tower, tag, l - 1));
        assert (tower + [nn])[k] == tower[k];
      }
    }
    rows' := rows[l := row'];
    forall k | 0 <= k < MAX_HEIGHT && k != l
      ensures RowLinked(if k < l then s' else s, rows'[k], k)
    {
      ghost var t := if k < l then s' else s;
      assert old(RowLinked(t, rows[k], k));
      assert RowLevel(rows[k], k);
    }
  }

  /** doInsert's first loop: the new tower of h nodes, spliced in level by level. */
  method SpliceTower(preds: seq<Node>, passedAt: seq<int>, pos: int, h: int, tag: Tag,
                     ghost s: seq<Block>, ghost s': seq<Block>, ghost rows: seq<Row>, ghost nodes: set<Node>)
    returns (ghost tower: seq<Node>, ghost rows': seq<Row>)
    requires WellFormed(s) && 1 <= pos <= |s| + 1 && InsertedAt(s, s', pos)
    requires h == s'[pos - 1].height
    requires Shaped(s, rows, nodes) && Mixed(s, s', rows, 0)
    requires |preds| == |passedAt| == MAX_HEIGHT
    requires forall l | 0 <= l < MAX_HEIGHT :: IsPred(s, rows, l, pos, preds[l], passedAt[l])
    modifies nodes`right, nodes`left, nodes`rank
    ensures |tower| == h && fresh(set o | o in tower) && TowerLinked(tower, tag)
    ensures |rows'| == MAX_HEIGHT && Mixed(s, s', rows', h)
    ensures forall l | 0 <= l < MAX_HEIGHT :: rows'[l] == if l < h then InsertInRow(rows[l], pos, tower[l]) else rows[l]
  {
    hide Next, Prev, LabelAt, Insert, InsertInRow, RowLinked, Mixed, Shaped, TowerLinked, IsPred;
    ShapedSize(s, rows, nodes);
    assert TowerLinked([], tag) by { EmptyTower(tag); }
    tower, rows' := [], rows;
    var below: Node? := null;
    for lvl := 0 to h
      invariant |tower| == lvl && |rows'| == MAX_HEIGHT
      invariant below == if lvl == 0 then null else tower[lvl - 1]
      invariant fresh(set o | o in tower) && TowerLinked(tower, tag)
      invariant forall l | 0 <= l < MAX_HEIGHT ::
                  rows'[l] == if l < lvl then InsertInRow(rows[l], pos, tower[l]) else rows[l]
      invariant Mixed(s, s', rows', lvl)
    {
      var p := preds[lvl];
      SpliceReady(s, s', rows, rows', nodes, lvl, pos, p, passedAt[lvl]);
      var nn;
      nn, rows' := SpliceLevel(p, lvl, pos, passedAt[lvl], below, tag, s, s', rows', tower);
      below := nn;
      tower := tower + [nn];
    }
  }

  /** One round of doInsert's second loop: above the new tower the predecessor's span grows by one block. */
  method AbsorbLevel(p: Node, l: nat, ghost pos: nat, ghost s: seq<Block>, ghost s': seq<Block>, ghost rows: seq<Row>)
    returns (ghost rows': seq<Row>)
    requires WellFormed(s) && 1 <= pos <= |s| + 1 && InsertedAt(s, s', pos)
    requires s'[pos - 1].height <= l < MAX_HEIGHT
    requires Mixed(s, s', rows, l) && p.level == l && p == At(rows, l, Prev(s, l, pos))
    modifies p`rank
    ensures |rows[l]| == |s| + 2
    ensures rows' == rows[l := InsertInRow(rows[l], pos, null)]
    ensures Mixed(s, s', rows', l + 1)
  {
    hide Next, Prev, LabelAt, Insert, InsertInRow, RowShape, LinksTo, Rank;
    ghost var row := rows[l];
    assert RowLinked(s, row, l);
    RowSize(s, row, l);
    MixedLevels(s, s', rows, l);
    p.rank := p.rank + 1;
    ghost var row' := InsertInRow(row, pos, null);
    rows' := rows[l := row'];
    InsertedRowShape(s, row, l, pos, s'[pos - 1], null);
    forall j | 0 <= j < |row'| && row'[j] != null ensures Linked(s', row', l, j) {
      var i := if j < pos then j else j - 1;
      assert Moved(pos, i) == j && row'[j] == row[i];
      RowDistinct(s, row, l, i, Prev(s, l, pos));
      assert old(Linked(s, row, l, i));
      SplicedLink(s, s', row, row', l, pos, i, null, old(row[i].right), old(row[i].left), old(row[i].rank));
    }
    assert RowLinked(s', row', l);
    forall k | 0 <= k < MAX_HEIGHT && k != l
      ensures RowLinked(if k < l then s' else s, rows'[k], k)
    {
      assert old(RowLinked(if k < l then s' else s, rows[k], k));
      assert RowLevel(rows[k], k);
    }
  }

  /** doInsert's second loop. */
  method AbsorbAbove(preds: seq<Node>, pos: int, h: int, ghost s: seq<Block>, ghost s': seq<Block>,
                     ghost rows: seq<Row>, ghost start: seq<Row>, ghost nodes: set<Node>)
    returns (ghost rows': seq<Row>)
    requires WellFormed(s) && 1 <= pos <= |s| + 1 && InsertedAt(s, s', pos)
    requires h == s'[pos - 1].height
    requires Shaped(s, rows, nodes) && Mixed(s, s', start, h)
    requires |preds| == MAX_HEIGHT && |start| == MAX_HEIGHT
    requires forall l | 0 <= l < MAX_HEIGHT :: preds[l] == At(rows, l, Prev(s, l, pos))
    requires forall l | h <= l < MAX_HEIGHT :: start[l] == rows[l]
    modifies nodes`rank
    ensures |rows'| == MAX_HEIGHT && Mixed(s, s', rows', MAX_HEIGHT)
    ensures forall l | 0 <= l < MAX_HEIGHT ::
              |rows[l]| == |s| + 2 && rows'[l] == if l < h then start[l] else InsertInRow(rows[l], pos, null)
  {
    hide Next, Prev, LabelAt, Insert, InsertInRow, RowLinked, Mixed, Shaped;
    ShapedSize(s, rows, nodes);
    rows' := start;
    for lvl := h to MAX_HEIGHT
      invariant |rows'| == MAX_HEIGHT
      invariant forall l | 0 <= l < h :: rows'[l] == start[l]
      invariant forall l | h <= l < MAX_HEIGHT ::
                  rows'[l] == if l < lvl then InsertInRow(rows[l], pos, null) else rows[l]
      invariant Mixed(s, s', rows', lvl)
    {
      PredIn(s, rows, nodes, lvl, pos);
      rows' := AbsorbLevel(preds[lvl], lvl, pos, s, s', rows');
    }
  }

  lemma {:induction false} PredIn(s: seq<Block>, rows: seq<Row>, nodes: set<Node>, l: nat, pos: nat)
    requires Shaped(s, rows, nodes) && l < MAX_HEIGHT && 1 <= pos <= |s| + 1
    ensures var p := At(rows, l, Prev(s, l, pos)); p != null && p in nodes && p.level == l
  {
    hide Next, Prev, LabelAt;
    var k := Prev(s, l, pos);
    RowPresence(s, rows[l], l, k);
    assert RowIn(rows[l], nodes) && rows[l][k] in rows[l];
  }

  lemma {:induction false} EmptyTower(tag: Tag)
    ensures TowerLinked([], tag)
  {
  }

  lemma {:induction false} ShapedSize(s: seq<Block>, rows: seq<Row>, nodes: set<Node>)
    requires Shaped(s, rows, nodes)
    ensures |rows| == MAX_HEIGHT
    ensures forall l | 0 <= l < MAX_HEIGHT :: |rows[l]| == |s| + 2
  {
    hide Height;
    assert forall l | 0 <= l < MAX_HEIGHT :: RowShape(s, rows[l], l);
  }

  lemma {:induction false} SpliceReady(s: seq<Block>, s': seq<Block>, rows: seq<Row>, cur: seq<Row>, nodes: set<Node>,
                                       l: nat, pos: nat, p: Node, passed: int)
    requires Shaped(s, rows, nodes) && l < MAX_HEIGHT && Mixed(s, s', cur, l)
    requires cur[l] == rows[l]
    requires IsPred(s, rows, l, pos, p, passed)
    ensures p in nodes && p.level == l && p.right != null && p.right in nodes
    ensures p.right.level == l
    ensures p == rows[l][Prev(s, l, pos)] && passed == Before(Prev(s, l, pos))
    ensures p.right == rows[l][Next(s, l, Prev(s, l, pos))]
  {
    hide Next, Prev, LabelAt;
    LinkedAt(s, rows[l], l, Prev(s, l, pos));
    LinkedAt(s, rows[l], l, Next(s, l, Prev(s, l, pos)));
    assert RowIn(rows[l], nodes) && p in rows[l] && p.right in rows[l];
  }

  /** The rows of the longer list: the new tower inserted at pos, nothing above it. */
  ghost predicate InsertedRows(rows: seq<Row>, rows': seq<Row>, pos: nat, tower: seq<Node>) {
    && |rows| == |rows'| == MAX_HEIGHT
    && forall l | 0 <= l < MAX_HEIGHT ::
         1 <= pos <= |rows[l]| && rows'[l] == InsertInRow(rows[l], pos, if l < |tower| then tower[l] else null)
  }

  lemma {:induction false} InsertedAtCell(rows: seq<Row>, rows': seq<Row>, pos: nat, tower: seq<Node>, l: int, i: nat)
    requires InsertedRows(rows, rows', pos, tower) && |tower| <= MAX_HEIGHT
    requires forall k | 0 <= k < MAX_HEIGHT :: i < |rows[k]|
    ensures At(rows', l, Moved(pos, i)) == At(rows, l, i)
    ensures At(rows', l, pos) == if 0 <= l < |tower| then tower[l] else null
  {
  }

  lemma {:induction false} InsertedStacks(s: seq<Block>, s': seq<Block>, rows: seq<Row>, rows': seq<Row>, pos: nat,
                                          tower: seq<Node>, nodes: set<Node>, nodes': set<Node>)
    requires 1 <= pos <= |s| + 1 && InsertedAt(s, s', pos)
    requires |tower| == s'[pos - 1].height
    requires InsertedRows(rows, rows', pos, tower)
    requires TowerLinked(tower, Tag(s'[pos - 1].tag))
    requires Shaped(s, rows, nodes) && AllStacked(s, rows, nodes)
    requires Shaped(s', rows', nodes')
    ensures AllStacked(s', rows', nodes')
  {
    hide Next, Prev, LabelAt, Insert, Shaped, InsertedRows;
    ShapedSize(s, rows, nodes);
    InsertedSpans(s, s', pos);
    forall l, j | 0 <= l < MAX_HEIGHT && 0 <= j <= |s'| + 1 && At(rows', l, j) != null
      ensures Stacked(s', rows', l, j)
    {
      var i := if j < pos then j else j - 1;
      InsertedAtCell(rows, rows', pos, tower, l, i);
      InsertedAtCell(rows, rows', pos, tower, l - 1, i);
      InsertedAtCell(rows, rows', pos, tower, l + 1, i);
      if j != pos {
        assert Moved(pos, i) == j && Elem(s', Moved(pos, i)) == Elem(s, i);
        assert Stacked(s, rows, l, i);
      } else {
        assert TowerNode(tower, Tag(s'[pos - 1].tag), l);
      }
    }
  }

  lemma {:induction false} InsertedSpans(s: seq<Block>, s': seq<Block>, pos: nat)
    requires InsertedAt(s, s', pos)
    ensures forall i: nat | i <= |s| + 1 :: Elem(s', Moved(pos, i)) == Elem(s, i)
    ensures Elem(s', pos).tag == Tag(s'[pos - 1].tag)
  {
    hide Insert;
    InsertSpans(s, pos, s'[pos - 1]);
  }

  lemma {:induction false} InsertedShape(s: seq<Block>, s': seq<Block>, rows: seq<Row>, rows': seq<Row>, pos: nat,
                                         tower: seq<Node>, nodes: set<Node>)
    requires InsertedRows(rows, rows', pos, tower) && Shaped(s, rows, nodes)
    requires Mixed(s, s', rows', MAX_HEIGHT)
    ensures var nodes' := nodes + (set o | o in tower);
            Shaped(s', rows', nodes') && AllLinked(s', rows', nodes')
  {
    hide Next, Prev, LabelAt, LinksTo, RowShape;
    var nodes' := nodes + (set o | o in tower);
    forall l | 0 <= l < MAX_HEIGHT ensures RowShape(s', rows'[l], l) && RowIn(rows'[l], nodes') {
      assert RowLinked(s', rows'[l], l);
      assert RowIn(rows[l], nodes);
    }
  }

  lemma {:induction false} RowsOfInsert(rows: seq<Row>, mid: seq<Row>, rows': seq<Row>, pos: nat, tower: seq<Node>,
                                        n: nat)
    requires |rows| == |mid| == |rows'| == MAX_HEIGHT && |tower| <= MAX_HEIGHT
    requires 1 <= pos <= n + 1
    requires forall l | 0 <= l < MAX_HEIGHT :: |rows[l]| == n + 2
    requires forall l | 0 <= l < |tower| :: mid[l] == InsertInRow(rows[l], pos, tower[l])
    requires forall l | 0 <= l < MAX_HEIGHT ::
               rows'[l] == if l < |tower| then mid[l] else InsertInRow(rows[l], pos, null)
    ensures InsertedRows(rows, rows', pos, tower)
  {
  }

  /** What doInsert leaves behind is the structure of the longer list. */
  lemma {:induction false} InsertedValid(s: seq<Block>, s': seq<Block>, rows: seq<Row>, rows': seq<Row>, pos: nat,
                                         tower: seq<Node>, nodes: set<Node>)
    requires WellFormed(s) && 1 <= pos <= |s| + 1 && InsertedAt(s, s', pos)
    requires |tower| == s'[pos - 1].height
    requires InsertedRows(rows, rows', pos, tower)
    requires TowerLinked(tower, Tag(s'[pos - 1].tag))
    requires Shaped(s, rows, nodes) && AllStacked(s, rows, nodes)
    requires Mixed(s, s', rows', MAX_HEIGHT)
    ensures WellFormed(s')
    ensures var nodes' := nodes + (set o | o in tower);
            Shaped(s', rows', nodes') && AllLinked(s', rows', nodes') && AllStacked(s', rows', nodes')
    ensures forall l | 0 <= l < MAX_HEIGHT :: |rows[l]| >= 1 && |rows'[l]| >= 1 && rows'[l][0] == rows[l][0]
  {
    hide Next, Prev, LabelAt, Insert, Shaped, AllLinked, AllStacked, Mixed;
    InsertedShape(s, s', rows, rows', pos, tower, nodes);
    InsertedStacks(s, s', rows, rows', pos, tower, nodes, nodes + (set o | o in tower));
    InsertWellFormed(s, pos, s'[pos - 1]);
    InsertedLevels(rows, rows', pos, tower);
  }

  lemma {:induction false} InsertedLevels(rows: seq<Row>, rows': seq<Row>, pos: nat, tower: seq<Node>)
    requires InsertedRows(rows, rows', pos, tower)
    ensures forall l | 0 <= l < MAX_HEIGHT :: |rows[l]| >= 1 && |rows'[l]| >= 1 && rows'[l][0] == rows[l][0]
  {
  }

  // ---------------------------------------------------------------- one level of a delete

  ghost function RemoveFromRow(row: Row, pos: nat): Row
    requires pos < |row|
  {
    row[..pos] + row[pos + 1..]
  }

  /** The row of the shorter list, read off the row of the longer one. */
  lemma {:induction false} RemovedRowShape(s: seq<Block>, s': seq<Block>, row: Row, row': Row, l: nat, pos: nat)
    requires InsertedAt(s, s', pos) && l < MAX_HEIGHT && RowShape(s', row', l)
    requires row == RemoveFromRow(row', pos)
    ensures RowShape(s, row, l) && (row'[pos] != null <==> l < s'[pos - 1].height)
    ensures |row'| == |row| + 1
    ensures forall i | 0 <= i < |row| :: row'[Moved(pos, i)] == row[i]
    ensures row'[pos] != null ==> row'[pos] !in row
  {
    hide Next, Prev, LabelAt, Insert;
    InsertSpans(s, pos, s'[pos - 1]);
    assert Height(s', pos) == s'[pos - 1].height;
    forall i | 0 <= i < |row| ensures row'[Moved(pos, i)] == row[i] && (row[i] != null <==> l < Height(s, i)) {
      assert Height(s', Moved(pos, i)) == Height(s, i);
    }
    forall i, j | 0 <= i < j < |row| && row[i] != null ensures row[i] != row[j] {
      assert row'[Moved(pos, i)] != row'[Moved(pos, j)];
    }
    forall o: Node | o in row ensures o in row' && (row'[pos] != null ==> o != row'[pos]) {
      var i :| 0 <= i < |row| && row[i] == o;
      assert row'[Moved(pos, i)] == o;
    }
  }

  /** SplicedLink read backwards: the links a node must have once the new node is gone again. */
  lemma {:induction false} UnsplicedLink(s: seq<Block>, s': seq<Block>, row: Row, row': Row, l: nat, pos: nat, i: nat,
                                         nn: Node?, right: Node?, left: Node?, rank: int)
    requires WellFormed(s) && 1 <= pos <= |s| + 1 && InsertedAt(s, s', pos)
    requires l < MAX_HEIGHT
    requires nn != null <==> l < s'[pos - 1].height
    requires |row| == |s| + 2 && i < |row| && l < Height(s, i)
    requires |row'| == |row| + 1 && row'[pos] == nn
    requires forall k | 0 <= k < |row| :: row'[Moved(pos, k)] == row[k]
    requires LinksTo(s', row', l, Moved(pos, i), right, left, rank)
    ensures var k := Prev(s, l, pos); var w := Next(s, l, k);
            LinksTo(s, row, l, i,
                    if i == k && nn != null then row[w] else right,
                    if i == w && nn != null then row[k] else left,
                    if i != k then rank else if nn != null then rank + (w - pos) else rank - 1)
  {
    hide Next, Prev, LabelAt, Insert;
    var right0 := if i == |s| + 1 then null else row[Next(s, l, i)];
    var left0 := if i == 0 then null else row[Prev(s, l, i)];
    SplicedLink(s, s', row, row', l, pos, i, nn, right0, left0, Rank(s, l, i));
    if i == Next(s, l, Prev(s, l, pos)) {
      NeighboursInverse(s, l, Prev(s, l, pos));
    }
  }

  /** The splice-out branch of deleteAt's loop. */
  method RemoveNode(p: Node, removed: Node, w: Node)
    requires p.right == removed && removed.right == w && p != removed && p != w
    requires removed != w
    modifies p`right, p`rank, w`left
    ensures p.right == w && w.left == p
    ensures p.rank == if removed.rank > 1 then old(p.rank) + (removed.rank - 1) else old(p.rank)
  {
    p.right := removed.right;
    if p.right != null { p.right.left := p; }
    if removed.rank > 1 {
      p.rank := p.rank + (removed.rank - 1);
    }
  }

  /** One round of deleteAt's loop, on a level the deleted tower reaches or above it. */
  method RemoveLevel(p: Node, isTower: bool, ghost l: nat, ghost pos: nat, ghost s: seq<Block>, ghost s': seq<Block>,
                     ghost rows: seq<Row>)
    returns (ghost rows': seq<Row>)
    requires WellFormed(s) && 1 <= pos <= |s| + 1 && InsertedAt(s, s', pos)
    requires l < MAX_HEIGHT
    requires Mixed(s', s, rows, l) && p.level == l && p == At(rows, l, Prev(s, l, pos))
    requires isTower <==> l < s'[pos - 1].height
    modifies p`right, p`rank, (if isTower && p.right != null && p.right.right != null then {p.right.right} else {})`left
    ensures |rows[l]| == |s'| + 2 && rows' == rows[l := RemoveFromRow(rows[l], pos)]
    ensures Mixed(s', s, rows', l + 1)
  {
    hide Next, Prev, LabelAt, Insert, InsertInRow, RemoveFromRow, RowShape, LinksTo, Rank;
    ghost var row' := rows[l];
    ghost var k := Prev(s, l, pos);
    ghost var b := s'[pos - 1];
    assert RowLinked(s', row', l);
    RowSize(s', row', l);
    MixedLevels(s', s, rows, l);
    ghost var row := RemoveFromRow(row', pos);
    RemovedRowShape(s, s', row, row', l, pos);
    RemovalSite(s, s', row, row', l, pos);
    ghost var removed := row'[pos];
    if isTower {
      RemoveNode(p, p.right, p.right.right);
    } else {
      p.rank := p.rank - 1;
    }
    rows' := rows[l := row];
    forall i | 0 <= i < |row| && row[i] != null ensures Linked(s, row, l, i) {
      RowDistinct(s, row, l, i, k);
      RowDistinct(s, row, l, i, Next(s, l, k));
      assert row'[Moved(pos, i)] == row[i];
      assert old(Linked(s', row', l, Moved(pos, i)));
      UnsplicedLink(s, s', row, row', l, pos, i, removed, old(row[i].right), old(row[i].left), old(row[i].rank));
    }
    assert RowLinked(s, row, l);
    forall j | 0 <= j < MAX_HEIGHT && j != l
      ensures RowLinked(if j < l then s else s', rows'[j], j)
    {
      assert old(RowLinked(if j < l then s else s', rows[j], j));
      assert RowLevel(rows[j], j);
    }
  }

  /** What deleteAt finds to the right of the predecessor. */
  lemma {:induction false} RemovalSite(s: seq<Block>, s': seq<Block>, row: Row, row': Row, l: nat, pos: nat)
    requires WellFormed(s) && 1 <= pos <= |s| + 1 && InsertedAt(s, s', pos)
    requires RowLinked(s', row', l)
    requires RowShape(s, row, l) && |row'| == |row| + 1
    requires forall i | 0 <= i < |row| :: row'[Moved(pos, i)] == row[i]
    ensures var k := Prev(s, l, pos); var w := Next(s, l, k);
      && Prev(s', l, pos) == k && row[k] != null && row[k] == row'[k] && row[w] != null && row[k] != row[w]
          && row[w].level == l && k < pos <= w
      && (l < s'[pos - 1].height ==>
            row'[pos] != null && row[k].right == row'[pos] && row'[pos].right == row[w] && row'[pos].rank == w - pos + 1
            && row'[pos] != row[k] && row'[pos] != row[w])
      && (l >= s'[pos - 1].height ==> row[k].right == row[w])
  {
    hide Next, Prev, LabelAt, Insert, RowShape, LinksTo;
    var b := s'[pos - 1];
    var k := Prev(s, l, pos);
    var w := Next(s, l, k);
    NextAcrossInsert(s, pos, b, l, k);
    PrevAcrossInsert(s, pos, b, l);
    RowPresence(s, row, l, k);
    RowPresence(s, row, l, w);
    RowDistinct(s, row, l, k, w);
    assert row'[Moved(pos, k)] == row[k] && row'[Moved(pos, w)] == row[w];
    LinkedAt(s', row', l, k);
    if l < b.height {
      NewNodeNeighbours(s, pos, b, l);
      LinkedAt(s', row', l, pos);
      RankOf(s', row', l, pos);
      RowDistinct(s', row', l, pos, k);
      RowDistinct(s', row', l, pos, w + 1);
    }
  }

  /** deleteAt's test whether the deleted tower still reaches the level. */
  lemma {:induction false} TowerTest(s: seq<Block>, s': seq<Block>, rows: seq<Row>, cur: seq<Row>, nodes: set<Node>,
                                     l: nat, pos: nat)
    requires WellFormed(s) && 1 <= pos <= |s| + 1 && InsertedAt(s, s', pos)
    requires l < MAX_HEIGHT
    requires Mixed(s', s, cur, l) && Shaped(s', rows, nodes)
    requires AllStacked(s', rows, nodes) && cur[l] == rows[l]
    ensures var p := At(rows, l, Prev(s, l, pos)); var h := s'[pos - 1].height;
      && p != null && p in nodes && p.level == l && p.right != null
      && (l < h ==> p.right == At(rows, l, pos) && (l > 0 ==> p.right.down == At(rows, l - 1, pos)))
      && (l < h ==> p.right.right != null && p.right.right in nodes)
      && (l == h ==> p.right.down != At(rows, l - 1, pos))
  {
    hide Next, Prev, LabelAt, Insert, RowShape, LinksTo, RemoveFromRow, AllStacked;
    var h := s'[pos - 1].height;
    var row' := rows[l];
    assert RowShape(s', row', l) && RowLinked(s', row', l) && RowIn(row', nodes);
    RowSize(s', row', l);
    var row := RemoveFromRow(row', pos);
    RemovedRowShape(s, s', row, row', l, pos);
    RowSize(s, row, l);
    RemovalSite(s, s', row, row', l, pos);
    var k := Prev(s, l, pos);
    var w := Next(s, l, k);
    assert row'[Moved(pos, w)] == row[w] && row[k] in row' && row[w] in row';
    RowPresence(s', row', l, k);
    if 1 <= l <= h {
      var j := if l < h then pos else w + 1;
      assert At(rows, l, j) == row'[j];
      StackedAt(s', rows, nodes, l, j);
      assert RowShape(s', rows[l - 1], l - 1);
      RowSize(s', rows[l - 1], l - 1);
      HeightInserted(s, s', pos);
      RowPresence(s', rows[l - 1], l - 1, pos);
      RowDistinct(s', rows[l - 1], l - 1, pos, j);
    }
  }

  lemma {:induction false} StackedAt(s: seq<Block>, rows: seq<Row>, nodes: set<Node>, l: nat, i: nat)
    requires Shaped(s, rows, nodes) && AllStacked(s, rows, nodes) && l < MAX_HEIGHT
    requires i <= |s| + 1 && At(rows, l, i) != null
    ensures Stacked(s, rows, l, i)
  {
  }

  lemma {:induction false} HeightInserted(s: seq<Block>, s': seq<Block>, pos: nat)
    requires InsertedAt(s, s', pos)
    ensures Height(s', pos) == s'[pos - 1].height
  {
  }

  /** deleteAt's loop. */
  method RemoveTower(target: Node, preds: seq<Node>, ghost pos: nat,
                     ghost s: seq<Block>, ghost s': seq<Block>, ghost rows: seq<Row>, ghost nodes: set<Node>)
    returns (ghost rows': seq<Row>)
    requires WellFormed(s) && 1 <= pos <= |s| + 1 && InsertedAt(s, s', pos)
    requires Shaped(s', rows, nodes) && AllStacked(s', rows, nodes)
    requires Mixed(s', s, rows, 0)
    requires target == At(rows, 0, pos) && |preds| == MAX_HEIGHT
    requires forall l | 0 <= l < MAX_HEIGHT :: preds[l] == At(rows, l, Prev(s, l, pos))
    modifies nodes`right, nodes`left, nodes`rank
    ensures |rows'| == MAX_HEIGHT && Mixed(s', s, rows', MAX_HEIGHT)
    ensures forall l | 0 <= l < MAX_HEIGHT :: |rows[l]| == |s'| + 2 && rows'[l] == RemoveFromRow(rows[l], pos)
  {
    hide Next, Prev, LabelAt, Insert, RemoveFromRow, RowLinked, Mixed, Shaped, AllStacked, InsertedAt;
    assert InsertedAt(s, s', pos);
    ShapedSize(s', rows, nodes);
    ghost var h := InsertedHeight(s, s', pos);
    rows' := rows;
    var towerNode, stillTower := target, true;
    for lvl := 0 to MAX_HEIGHT
      invariant |rows'| == MAX_HEIGHT
      invariant forall l | 0 <= l < MAX_HEIGHT :: rows'[l] == if l < lvl then RemoveFromRow(rows[l], pos) else rows[l]
      invariant Mixed(s', s, rows', lvl)
      invariant stillTower <==> lvl <= h
      invariant stillTower ==> towerNode == At(rows, if lvl == 0 then 0 else lvl - 1, pos)
    {
      TowerTest(s, s', rows, rows', nodes, lvl, pos);
      var p := preds[lvl];
      var isTower := stillTower;
      if isTower {
        if lvl == 0 {
          isTower := p.right == target;
        } else {
          isTower := p.right != null && p.right.down == towerNode;
        }
      }
      if isTower {
        towerNode := p.right;
      } else {
        stillTower := false;
      }
      rows' := RemoveLevel(p, isTower, lvl, pos, s, s', rows');
    }
  }

  ghost function InsertedHeight(s: seq<Block>, s': seq<Block>, pos: nat): (h: nat)
    requires InsertedAt(s, s', pos)
    ensures 1 <= h <= MAX_HEIGHT && h == s'[pos - 1].height
  {
    s'[pos - 1].height
  }

  lemma {:induction false} DeletedAt(s: seq<Block>, pos: nat)
    requires WellFormed(s) && 1 <= pos <= |s|
    ensures WellFormed(Delete(s, pos)) && InsertedAt(Delete(s, pos), s, pos)
    ensures |Delete(s, pos)| == |s| - 1 && Delete(s, pos) == s[..pos - 1] + s[pos..]
  {
    DeleteThenInsert(s, pos);
  }

  lemma {:induction false} PredsOfShorter(s: seq<Block>, s': seq<Block>, pos: nat)
    requires InsertedAt(s, s', pos)
    ensures forall l | 0 <= l < MAX_HEIGHT :: Prev(s', l, pos) == Prev(s, l, pos)
  {
    hide Next, Prev, Insert;
    forall l | 0 <= l < MAX_HEIGHT ensures Prev(s', l, pos) == Prev(s, l, pos) {
      PrevAcrossInsert(s, pos, s'[pos - 1], l);
    }
  }

  ghost predicate RemovedRows(rows: seq<Row>, rows': seq<Row>, pos: nat) {
    && |rows| == |rows'| == MAX_HEIGHT
    && forall l | 0 <= l < MAX_HEIGHT :: 1 <= pos < |rows[l]| && rows'[l] == RemoveFromRow(rows[l], pos)
  }

  lemma {:induction false} RemovedLevels(rows: seq<Row>, rows': seq<Row>, pos: nat)
    requires RemovedRows(rows, rows', pos)
    ensures forall l | 0 <= l < MAX_HEIGHT :: |rows[l]| >= 1 && |rows'[l]| >= 1 && rows'[l][0] == rows[l][0]
  {
  }

  lemma {:induction false} RemovedAtCell(rows: seq<Row>, rows': seq<Row>, pos: nat, l: int, i: nat)
    requires RemovedRows(rows, rows', pos)
    requires forall k | 0 <= k < MAX_HEIGHT :: i + 1 < |rows[k]|
    ensures At(rows', l, i) == At(rows, l, Moved(pos, i))
  {
  }

  lemma {:induction false} RemovedShape(s: seq<Block>, s': seq<Block>, rows: seq<Row>, rows': seq<Row>, pos: nat,
                                        nodes: set<Node>)
    requires InsertedAt(s, s', pos) && RemovedRows(rows, rows', pos)
    requires Shaped(s', rows, nodes)
    requires Mixed(s', s, rows', MAX_HEIGHT)
    ensures Shaped(s, rows', nodes) && AllLinked(s, rows', nodes)
  {
    hide Next, Prev, LabelAt, LinksTo, RowShape, Insert;
    forall l | 0 <= l < MAX_HEIGHT ensures RowShape(s, rows'[l], l) && RowIn(rows'[l], nodes) {
      assert RowLinked(s, rows'[l], l);
      assert RowIn(rows[l], nodes);
    }
  }

  lemma {:induction false} RemovedStacks(s: seq<Block>, s': seq<Block>, rows: seq<Row>, rows': seq<Row>, pos: nat,
                                         nodes: set<Node>)
    requires InsertedAt(s, s', pos) && RemovedRows(rows, rows', pos)
    requires Shaped(s', rows, nodes) && AllStacked(s', rows, nodes)
    requires Shaped(s, rows', nodes)
    ensures AllStacked(s, rows', nodes)
  {
    hide Next, Prev, LabelAt, Insert, Shaped, RemovedRows;
    ShapedSize(s', rows, nodes);
    InsertedSpans(s, s', pos);
    forall l, i | 0 <= l < MAX_HEIGHT && 0 <= i <= |s| + 1 && At(rows', l, i) != null ensures Stacked(s, rows', l, i) {
      RemovedAtCell(rows, rows', pos, l, i);
      RemovedAtCell(rows, rows', pos, l - 1, i);
      RemovedAtCell(rows, rows', pos, l + 1, i);
      assert Elem(s', Moved(pos, i)) == Elem(s, i);
      assert Stacked(s', rows, l, Moved(pos, i));
    }
  }

  /** A change of tag leaves every link as it is. */
  lemma {:induction false} ModifiedLinks(s: seq<Block>, pos: nat, tag: nat, rows: seq<Row>, nodes: set<Node>)
    requires 1 <= pos <= |s| && Shaped(s, rows, nodes) && AllLinked(s, rows, nodes)
    ensures Shaped(Modify(s, pos, tag), rows, nodes)
    ensures AllLinked(Modify(s, pos, tag), rows, nodes)
  {
    hide Next, Prev, LabelAt, Modify, Rank;
    var s' := Modify(s, pos, tag);
    ModifySpans(s, pos, tag);
    forall l | 0 <= l < MAX_HEIGHT ensures RowLinked(s', rows[l], l) {
      assert RowShape(s, rows[l], l) && RowLinked(s, rows[l], l);
      forall i | 0 <= i < |rows[l]| && rows[l][i] != null ensures Linked(s', rows[l], l, i) {
        ModifyNeighbours(s, pos, tag, l, i);
        assert Linked(s, rows[l], l, i);
      }
    }
  }

  /** Writing a tag changes the entry of its own position only. */
  method WriteTag(target: Node, tag: nat, ghost s: seq<Block>, ghost pos: nat, ghost rows: seq<Row>,
                  ghost nodes: set<Node>)
    requires 1 <= pos <= |s| && Shaped(s, rows, nodes) && AllStacked(s, rows, nodes)
    requires target == At(rows, 0, pos) && target.level == 0
    requires Shaped(Modify(s, pos, tag), rows, nodes)
    modifies target`tag
    ensures target.tag == Tag(tag) && AllStacked(Modify(s, pos, tag), rows, nodes)
  {
    hide Next, Prev, LabelAt, Modify, RowShape;
    ghost var s' := Modify(s, pos, tag);
    ModifySpans(s, pos, tag);
    assert Elem(s', pos).tag == Tag(tag) by { ModifiedElem(s, pos, tag); }
    target.tag := Tag(tag);
    forall l, i | 0 <= l < MAX_HEIGHT && 0 <= i <= |s'| + 1 && At(rows, l, i) != null ensures Stacked(s', rows, l, i) {
      assert old(Stacked(s, rows, l, i));
      assert RowShape(s, rows[l], l);
      RowPresence(s, rows[l], l, i);
      if l == 0 {
        RowDistinct(s, rows[l], l, i, pos);
      }
    }
  }

  lemma {:induction false} ModifiedElem(s: seq<Block>, pos: nat, tag: nat)
    requires 1 <= pos <= |s|
    ensures Elem(Modify(s, pos, tag), pos).tag == Tag(tag)
  {
  }

  /** One level of the empty list. */
  ghost predicate SentinelPair(lefts: seq<Node>, rights: seq<Node>, k: nat)
    requires |lefts| == |rights| && k < |lefts|
    reads lefts, rights
  {
    var l, r := lefts[k], rights[k];
    && l != r && l.level == r.level == k && l.isSentinel && r.isSentinel
    && l.right == r && r.left == l && l.left == null && r.right == null
    && l.rank == r.rank == 0 && l.tag == r.tag == NoTag
    && l.down == (if k == 0 then null else lefts[k - 1]) && r.down == (if k == 0 then null else rights[k - 1])
    && l.up == (if k + 1 < |lefts| then lefts[k + 1] else null)
        && r.up == (if k + 1 < |rights| then rights[k + 1] else null)
  }

  /** One round of newEmptySkipList's loop: a linked pair of sentinels on top of the previous one. */
  method AddSentinels(lvl: nat, prevLeft: Node?, prevRight: Node?, ghost lefts: seq<Node>, ghost rights: seq<Node>)
    returns (left: Node, right: Node)
    requires |lefts| == |rights| == lvl
    requires forall k | 0 <= k < lvl :: SentinelPair(lefts, rights, k)
    requires prevLeft == (if lvl == 0 then null else lefts[lvl - 1])
    requires prevRight == (if lvl == 0 then null else rights[lvl - 1])
    modifies (if prevLeft == null then {} else {prevLeft})`up, (if prevRight == null then {} else {prevRight})`up
    ensures fresh(left) && fresh(right)
    ensures forall k | 0 <= k <= lvl :: SentinelPair(lefts + [left], rights + [right], k)
  {
    if lvl > 0 {
      assert SentinelPair(lefts, rights, lvl - 1);
    }
    right := new Node(lvl, true);
    left := new Node(lvl, true);
    left.right := right;
    right.left := left;
    if prevLeft != null {
      left.down := prevLeft;
      right.down := prevRight;
      prevLeft.up := left;
      prevRight.up := right;
    }
    forall k | 0 <= k <= lvl ensures SentinelPair(lefts + [left], rights + [right], k) {
      if k < lvl {
        assert old(SentinelPair(lefts, rights, k));
        assert (lefts + [left])[k] == lefts[k] && (rights + [right])[k] == rights[k];
      }
    }
  }

  lemma {:induction false} SentinelRow(lefts: seq<Node>, rights: seq<Node>, k: nat)
    requires |lefts| == |rights| == MAX_HEIGHT && k < MAX_HEIGHT
    requires SentinelPair(lefts, rights, k)
    ensures RowLinked([], [lefts[k], rights[k]], k)
  {
    hide Next, Prev, LabelAt;
    var row: Row := [lefts[k], rights[k]];
    NextIs([], k, 0, 1);
    PrevIs([], k, 0, 1);
    assert RowShape([], row, k);
    assert Linked([], row, k, 0) && Linked([], row, k, 1);
  }

  lemma {:induction false} SentinelsValid(lefts: seq<Node>, rights: seq<Node>, rows: seq<Row>, nodes: set<Node>)
    requires |lefts| == |rights| == |rows| == MAX_HEIGHT
    requires forall k | 0 <= k < MAX_HEIGHT :: SentinelPair(lefts, rights, k) && rows[k] == [lefts[k], rights[k]]
    requires forall o | o in lefts + rights :: o in nodes
    ensures Shaped([], rows, nodes) && AllLinked([], rows, nodes)
    ensures AllStacked([], rows, nodes)
  {
    hide Next, Prev, LabelAt, LinksTo;
    forall k | 0 <= k < MAX_HEIGHT ensures RowLinked([], rows[k], k) && RowIn(rows[k], nodes) {
      SentinelRow(lefts, rights, k);
      assert lefts[k] in lefts + rights && rights[k] in lefts + rights;
    }
    forall k, i | 0 <= k < MAX_HEIGHT && 0 <= i <= 1 && At(rows, k, i) != null ensures Stacked([], rows, k, i) {
      SentinelStacked(lefts, rights, rows, k, i);
    }
  }

  lemma {:induction false} SentinelStacked(lefts: seq<Node>, rights: seq<Node>, rows: seq<Row>, k: nat, i: nat)
    requires |lefts| == |rights| == |rows| == MAX_HEIGHT && k < MAX_HEIGHT && i <= 1
    requires SentinelPair(lefts, rights, k)
    requires forall k | 0 <= k < MAX_HEIGHT :: rows[k] == [lefts[k], rights[k]]
    ensures At(rows, k, i) != null && Stacked([], rows, k, i)
  {
    hide Next, Prev, LabelAt;
    SentinelCell(lefts, rights, rows, k, i);
    SentinelCell(lefts, rights, rows, k - 1, i);
    SentinelCell(lefts, rights, rows, k + 1, i);
  }

  lemma {:induction false} SentinelCell(lefts: seq<Node>, rights: seq<Node>, rows: seq<Row>, k: int, i: nat)
    requires |lefts| == |rights| == |rows| == MAX_HEIGHT && i <= 1
    requires forall k | 0 <= k < MAX_HEIGHT :: rows[k] == [lefts[k], rights[k]]
    ensures At(rows, k, i) == if 0 <= k < MAX_HEIGHT then (if i == 0 then lefts[k] else rights[k]) else null
  {
  }

  /** newEmptySkipList's loop. */
  method MakeLevels() returns (levels: seq<Node>, ghost rights: seq<Node>)
    ensures |levels| == |rights| == MAX_HEIGHT && fresh(set o | o in levels + rights)
    ensures forall k | 0 <= k < MAX_HEIGHT :: SentinelPair(levels, rights, k)
  {
    hide SentinelPair;
    levels, rights := [], [];
    var prevLeft: Node?, prevRight: Node? := null, null;
    for lvl := 0 to MAX_HEIGHT
      invariant |levels| == |rights| == lvl
      invariant prevLeft == (if lvl == 0 then null else levels[lvl - 1])
      invariant prevRight == (if lvl == 0 then null else rights[lvl - 1])
      invariant fresh(set o | o in levels + rights)
      invariant forall k | 0 <= k < lvl :: SentinelPair(levels, rights, k)
    {
      var left, right := AddSentinels(lvl, prevLeft, prevRight, levels, rights);
      levels, rights := levels + [left], rights + [right];
      prevLeft, prevRight := left, right;
    }
  }
}
