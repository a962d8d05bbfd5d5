/**
 * The pairs one detection pass of the lite manager confirms, defined the way
 * _collisionDetection scans them: for every tracked collider, for every shape
 * of it ("myShape"), for every tracked collider, for every shape of that one.
 * The overlap test itself (CollisionUtil on world bounding volumes) is an
 * oracle `overlaps(shape, myShape)`.
 *
 * Each scan is a function of how many items of its list have been scanned, on
 * top of the pairs confirmed before it, so that a loop's invariant can name
 * the part done so far. Each is stated in closed form; a Step lemma shows how
 * one more iteration of its loop extends it.
 */
module LitePairs {
  import opened TriggerStateMachine
  import opened LiteColliders

  type Overlap = (LiteColliderShape, LiteColliderShape) -> bool

  /** Shape ids as a value, so that a scan does not depend on the heap. */
  type IdMap = map<LiteColliderShape, int>

  /** The shape lists of a list of colliders, as a value. */
  type Rows = seq<seq<LiteColliderShape>>

  /** Every shape on one of the colliders. */
  ghost function ShapesOf(cs: seq<LiteCollider>): set<LiteColliderShape>
    reads (set c | c in cs)`shapes
  {
    set c, s | c in cs && s in c.shapes :: s
  }

  /** The shape lists of the colliders, in order. */
  ghost function RowsOf(cs: seq<LiteCollider>): (rows: Rows)
    reads (set c | c in cs)`shapes
    ensures |rows| == |cs|
    ensures forall j :: 0 <= j < |cs| ==> rows[j] == cs[j].shapes
  {
    if cs == [] then [] else RowsOf(cs[..|cs| - 1]) + [cs[|cs| - 1].shapes]
  }

  /** Each shape ids maps holds that id now. */
  ghost predicate IdsCurrent(ids: IdMap)
    reads ids.Keys`id
  {
    forall s {:trigger s in ids} :: s in ids ==> ids[s] == s.id
  }

  /** The ids of every shape on one of the colliders, as the shapes hold them. */
  ghost function IdsOf(cs: seq<LiteCollider>): (ids: IdMap)
    reads (set c | c in cs)`shapes, ShapesOf(cs)`id
    ensures ids.Keys == ShapesOf(cs)
    ensures IdsCurrent(ids)
  {
    map s | s in ShapesOf(cs) :: s.id
  }

  /** Every shape of the rows. */
  function Members(rows: Rows): set<LiteColliderShape> {
    set r, s | r in rows && s in r :: s
  }

  /** The rows of the colliders hold exactly the shapes of the colliders. */
  lemma RowsOfMembers(cs: seq<LiteCollider>)
    ensures Members(RowsOf(cs)) == ShapesOf(cs)
  {
    var rows := RowsOf(cs);
    forall s | s in Members(rows) ensures s in ShapesOf(cs) {
      var r :| r in rows && s in r;
      var j :| 0 <= j < |rows| && rows[j] == r;
      assert cs[j] in cs;
    }
    forall s | s in ShapesOf(cs) ensures s in Members(rows) {
      var c :| c in cs && s in c.shapes;
      var j :| 0 <= j < |cs| && cs[j] == c;
      assert rows[j] in rows;
    }
  }

  /** Every shape of the rows has an id in ids. */
  predicate Covers(ids: IdMap, rows: Rows) {
    forall r, s :: r in rows && s in r ==> s in ids
  }

  /** shape meets myShape: they are different shapes, both with ids, that overlap. */
  predicate Meets(myShape: LiteColliderShape, shape: LiteColliderShape, ids: IdMap, overlaps: Overlap) {
    shape != myShape && overlaps(shape, myShape) && shape in ids && myShape in ids
  }

  /** The pair one encounter confirms: the key of shape and myShape when they meet. */
  function Hit(myShape: LiteColliderShape, shape: LiteColliderShape, ids: IdMap, overlaps: Overlap): set<Pair> {
    if Meets(myShape, shape, ids, overlaps) then {PairKey(ids[shape], ids[myShape])} else {}
  }

  /** The innermost loop after n steps: the keys of the first n shapes of one collider that meet myShape. */
  ghost function PairsWith(acc: set<Pair>, myShape: LiteColliderShape, shapes: seq<LiteColliderShape>, n: nat,
                           ids: IdMap, overlaps: Overlap): set<Pair>
    requires n <= |shapes|
  {
    acc + set k | 0 <= k < n && Meets(myShape, shapes[k], ids, overlaps) :: PairKey(ids[shapes[k]], ids[myShape])
  }

  /** The two inner loops after n colliders: the innermost loop's pairs for each of the first n rows. */
  ghost function PairsWithAll(acc: set<Pair>, myShape: LiteColliderShape, rows: Rows, n: nat,
                              ids: IdMap, overlaps: Overlap): set<Pair>
    requires n <= |rows|
  {
    acc + set k, p | 0 <= k < n && p in PairsWith({}, myShape, rows[k], |rows[k]|, ids, overlaps) :: p
  }

  /** _collisionDetection for one collider after n of its shapes: each of them against all the rows. */
  ghost function ShapesPairs(acc: set<Pair>, myShapes: seq<LiteColliderShape>, n: nat, rows: Rows,
                             ids: IdMap, overlaps: Overlap): set<Pair>
    requires n <= |myShapes|
  {
    acc + set i, p | 0 <= i < n && p in PairsWithAll({}, myShapes[i], rows, |rows|, ids, overlaps) :: p
  }

  /** update's loop after n rows of ds: _collisionDetection for each of them against the rows. */
  ghost function CollidersPairs(acc: set<Pair>, ds: Rows, n: nat, rows: Rows, ids: IdMap, overlaps: Overlap): set<Pair>
    requires n <= |ds|
  {
    acc + set d, p | 0 <= d < n && p in ShapesPairs({}, ds[d], |ds[d]|, rows, ids, overlaps) :: p
  }

  /** One more step of the innermost loop adds the pair of the next shape, if it meets myShape. */
  lemma PairsWithStep(acc: set<Pair>, myShape: LiteColliderShape, shapes: seq<LiteColliderShape>, n: nat,
                      ids: IdMap, overlaps: Overlap)
    requires n < |shapes|
    ensures PairsWith(acc, myShape, shapes, n + 1, ids, overlaps)
         == PairsWith(acc, myShape, shapes, n, ids, overlaps) + Hit(myShape, shapes[n], ids, overlaps)
  {
    var before := PairsWith(acc, myShape, shapes, n, ids, overlaps);
    forall p | p in PairsWith(acc, myShape, shapes, n + 1, ids, overlaps) && p !in acc
      ensures p in before + Hit(myShape, shapes[n], ids, overlaps)
    {
      var k :| 0 <= k < n + 1 && Meets(myShape, shapes[k], ids, overlaps) && p == PairKey(ids[shapes[k]], ids[myShape]);
      if k < n {
        assert p in before;
      }
    }
  }

  /** One more collider adds the innermost loop over its shapes. */
  lemma PairsWithAllStep(acc: set<Pair>, myShape: LiteColliderShape, rows: Rows, n: nat, ids: IdMap, overlaps: Overlap)
    requires n < |rows|
    ensures PairsWithAll(acc, myShape, rows, n + 1, ids, overlaps)
         == PairsWith(PairsWithAll(acc, myShape, rows, n, ids, overlaps), myShape, rows[n], |rows[n]|, ids, overlaps)
  {
    var before := PairsWithAll(acc, myShape, rows, n, ids, overlaps);
    var row := PairsWith({}, myShape, rows[n], |rows[n]|, ids, overlaps);
    assert PairsWith(before, myShape, rows[n], |rows[n]|, ids, overlaps) == before + row;
    forall p | p in PairsWithAll(acc, myShape, rows, n + 1, ids, overlaps) && p !in acc ensures p in before + row {
      var k :| 0 <= k < n + 1 && p in PairsWith({}, myShape, rows[k], |rows[k]|, ids, overlaps);
      if k < n {
        assert p in before;
      }
    }
  }

  /** One more shape of the collider adds its scan against every row. */
  lemma ShapesPairsStep(acc: set<Pair>, myShapes: seq<LiteColliderShape>, n: nat, rows: Rows, ids: IdMap, overlaps: Overlap)
    requires n < |myShapes|
    ensures ShapesPairs(acc, myShapes, n + 1, rows, ids, overlaps)
         == PairsWithAll(ShapesPairs(acc, myShapes, n, rows, ids, overlaps), myShapes[n], rows, |rows|, ids, overlaps)
  {
    var before := ShapesPairs(acc, myShapes, n, rows, ids, overlaps);
    var scan := PairsWithAll({}, myShapes[n], rows, |rows|, ids, overlaps);
    assert PairsWithAll(before, myShapes[n], rows, |rows|, ids, overlaps) == before + scan;
    forall p | p in ShapesPairs(acc, myShapes, n + 1, rows, ids, overlaps) && p !in acc ensures p in before + scan {
      var i :| 0 <= i < n + 1 && p in PairsWithAll({}, myShapes[i], rows, |rows|, ids, overlaps);
      if i < n {
        assert p in before;
      }
    }
  }

  /** One more collider of ds adds _collisionDetection for it. */
  lemma CollidersPairsStep(acc: set<Pair>, ds: Rows, n: nat, rows: Rows, ids: IdMap, overlaps: Overlap)
    requires n < |ds|
    ensures CollidersPairs(acc, ds, n + 1, rows, ids, overlaps)
         == ShapesPairs(CollidersPairs(acc, ds, n, rows, ids, overlaps), ds[n], |ds[n]|, rows, ids, overlaps)
  {
    var before := CollidersPairs(acc, ds, n, rows, ids, overlaps);
    var scan := ShapesPairs({}, ds[n], |ds[n]|, rows, ids, overlaps);
    assert ShapesPairs(before, ds[n], |ds[n]|, rows, ids, overlaps) == before + scan;
    forall p | p in CollidersPairs(acc, ds, n + 1, rows, ids, overlaps) && p !in acc ensures p in before + scan {
      var d :| 0 <= d < n + 1 && p in ShapesPairs({}, ds[d], |ds[d]|, rows, ids, overlaps);
      if d < n {
        assert p in before;
      }
    }
  }

  /** p is the key of two different shapes of the rows that overlap. */
  ghost predicate ScannedPair(rows: Rows, ids: IdMap, overlaps: Overlap, p: Pair) {
    exists m, s :: m in Members(rows) && s in Members(rows) && Meets(m, s, ids, overlaps) && p == PairKey(ids[s], ids[m])
  }

  /**
   * The manager's whole scan, its colliders against themselves, confirms
   * exactly the pairs of two different tracked shapes that overlap, whatever
   * the order of the colliders and of their shapes.
   */
  lemma ConfirmedIsScanned(rows: Rows, ids: IdMap, overlaps: Overlap, p: Pair)
    ensures p in CollidersPairs({}, rows, |rows|, rows, ids, overlaps) <==> ScannedPair(rows, ids, overlaps, p)
  {
    if p in CollidersPairs({}, rows, |rows|, rows, ids, overlaps) {
      var d :| 0 <= d < |rows| && p in ShapesPairs({}, rows[d], |rows[d]|, rows, ids, overlaps);
      var i :| 0 <= i < |rows[d]| && p in PairsWithAll({}, rows[d][i], rows, |rows|, ids, overlaps);
      var k :| 0 <= k < |rows| && p in PairsWith({}, rows[d][i], rows[k], |rows[k]|, ids, overlaps);
      var j :| 0 <= j < |rows[k]| && Meets(rows[d][i], rows[k][j], ids, overlaps) && p == PairKey(ids[rows[k][j]], ids[rows[d][i]]);
      InMembers(rows, d, rows[d][i]);
      InMembers(rows, k, rows[k][j]);
    }
    if ScannedPair(rows, ids, overlaps, p) {
      var m, s :| m in Members(rows) && s in Members(rows) && Meets(m, s, ids, overlaps) && p == PairKey(ids[s], ids[m]);
      var d, i := MemberAt(rows, m);
      var k, j := MemberAt(rows, s);
      assert p in PairsWith({}, m, rows[k], |rows[k]|, ids, overlaps);
      assert p in PairsWithAll({}, m, rows, |rows|, ids, overlaps);
      assert p in ShapesPairs({}, rows[d], |rows[d]|, rows, ids, overlaps);
    }
  }

  /** A shape on row k is a member of the rows. */
  lemma InMembers(rows: Rows, k: nat, s: LiteColliderShape)
    requires k < |rows| && s in rows[k]
    ensures s in Members(rows)
  {
    assert rows[k] in rows;
  }

  /** A member of the rows sits at some position of some row. */
  lemma MemberAt(rows: Rows, s: LiteColliderShape) returns (k: nat, i: nat)
    requires s in Members(rows)
    ensures k < |rows| && i < |rows[k]| && rows[k][i] == s
  {
    var r :| r in rows && s in r;
    k :| k < |rows| && rows[k] == r;
    i :| i < |r| && r[i] == s;
  }
}
