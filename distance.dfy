/**
 * `euclidean_dist_to_origin` and `nearest_neighbor` of
 * candidate/neighbor_node.py. The distance is kept squared and exact:
 * `None` stands for the `float('inf')` sentinel of a malformed position,
 * `Some(x*x + y*y)` for `math.hypot(x, y)` squared. Because the exact norm
 * is the non-negative square root of that value, comparing squares orders
 * entries exactly as comparing exact norms does (`NormOrderIsSquareOrder`).
 * Rounded norms can tie where the squares differ; such ties are not modelled.
 */
module Distance {
  import opened Wrappers
  import opened Json
  import opened Validator
  import opened Table

  /** `pos` is a list of exactly two numbers (booleans included). */
  predicate IsCoordinatePair(pos: Value) {
    pos.Array? && |pos.items| == 2 && IsNumber(pos.items[0]) && IsNumber(pos.items[1])
  }

  /**
   * `euclidean_dist_to_origin(pos)`, squared: the sentinel for anything but
   * a two-element list of numbers, and otherwise the squared norm of the pair.
   */
  function SquaredDistance(pos: Value): (d: Option<real>)
    ensures d.None? <==> !IsCoordinatePair(pos)
    ensures d.Some? ==> 0.0 <= d.value
    ensures d.Some? ==>
      var x, y := AsReal(pos.items[0]).value, AsReal(pos.items[1]).value;
      d.value == x * x + y * y
  {
    if !pos.Array? || |pos.items| != 2 then None
    else
      var x, y := AsReal(pos.items[0]), AsReal(pos.items[1]);
      if x.None? || y.None? then None
      else Some(x.value * x.value + y.value * y.value)
  }

  /** `d` is the Euclidean norm whose square is `sq`. */
  ghost predicate IsNorm(d: real, sq: real) {
    0.0 <= d && d * d == sq
  }

  /** Comparing two exact norms with `<` agrees with comparing their squares. */
  lemma NormOrderIsSquareOrder(d1: real, sq1: real, d2: real, sq2: real)
    requires IsNorm(d1, sq1) && IsNorm(d2, sq2)
    ensures d1 < d2 <==> sq1 < sq2
  {
    if d1 < d2 {
      MultiplyMonotone(d1, d1, d2);
      MultiplyStrictlyMonotone(d2, d1, d2);
      assert d1 * d2 == d2 * d1;
      calc {
        sq1;
        d1 * d1;
      <= d1 * d2;
        d2 * d1;
      <  d2 * d2;
        sq2;
      }
    } else {
      MultiplyMonotone(d2, d2, d1);
      MultiplyMonotone(d1, d2, d1);
      assert d1 * d2 == d2 * d1;
    }
  }

  lemma MultiplyMonotone(a: real, b: real, c: real)
    requires 0.0 <= a && b <= c
    ensures a * b <= a * c
  {}

  lemma MultiplyStrictlyMonotone(a: real, b: real, c: real)
    requires 0.0 < a && b < c
    ensures a * b < a * c
  {}

  /** The distance of the `k`-th entry in iteration order (`data.get("pos")`). */
  ghost function DistAt(t: Table, k: int): Option<real>
    requires t.Valid() && 0 <= k < |t.order|
  {
    SquaredDistance(t.entries[t.order[k]].pos)
  }

  /**
   * Entry `k` has a finite distance that no entry among the first `n` beats,
   * and every entry before it is strictly farther or malformed: it is what the
   * running minimum with strict `<` holds after `n` entries.
   */
  ghost predicate IsFirstMinimumAmong(t: Table, k: int, n: int)
    requires t.Valid() && 0 <= n <= |t.order|
  {
    && 0 <= k < n
    && DistAt(t, k).Some?
    && (forall j :: 0 <= j < n && DistAt(t, j).Some? ==> DistAt(t, k).value <= DistAt(t, j).value)
    && (forall j :: 0 <= j < k ==> DistAt(t, j).None? || DistAt(t, k).value < DistAt(t, j).value)
  }

  /** The answer of `nearest_neighbor`: the id and squared distance of the winning entry. */
  datatype Nearest = Nearest(id: string, sqDist: real)

  /**
   * `nn` is `None` exactly when no entry has a finite distance, and otherwise
   * names the first entry in iteration order whose distance is minimal, with
   * that distance.
   */
  ghost predicate IsNearestAnswer(t: Table, nn: Option<Nearest>)
    requires t.Valid()
  {
    && (nn.None? <==> forall k :: 0 <= k < |t.order| ==> DistAt(t, k).None?)
    && (nn.Some? ==> exists k :: IsFirstMinimumAmong(t, k, |t.order|) && nn.value == Nearest(t.order[k], DistAt(t, k).value))
  }

  /**
   * `nearest_neighbor(neighbors)`: `None` exactly when no entry has a finite
   * distance (the empty table included); otherwise the first entry in
   * iteration order whose distance is minimal, with that distance.
   */
  method NearestNeighbor(t: Table) returns (nn: Option<Nearest>)
    requires t.Valid()
    ensures IsNearestAnswer(t, nn)
  {
    var minDist: Option<real> := None;   // None is float('inf')
    var nearestId: Option<string> := None;
    ghost var best := -1;
    for i := 0 to |t.order|
      invariant nearestId.None? <==> forall k :: 0 <= k < i ==> DistAt(t, k).None?
      invariant nearestId.None? <==> minDist.None?
      invariant nearestId.Some? ==>
        IsFirstMinimumAmong(t, best, i) && nearestId.value == t.order[best] && minDist == DistAt(t, best)
    {
      var id := t.order[i];
      var dist := SquaredDistance(t.entries[id].pos);
      assert dist == DistAt(t, i);
      if dist.Some? && (minDist.None? || dist.value < minDist.value) {
        minDist := dist;
        nearestId := Some(id);
        best := i;
      }
    }
    if nearestId.Some? {
      return Some(Nearest(nearestId.value, minDist.value));
    }
    return None;
  }

  /** The answer `NearestNeighbor` promises is determined by the table: ties go to the first minimal entry. */
  lemma NearestAnswerIsUnique(t: Table, a: Option<Nearest>, b: Option<Nearest>)
    requires t.Valid() && IsNearestAnswer(t, a) && IsNearestAnswer(t, b)
    ensures a == b
  {
    if a.Some? && b.Some? {
      var k1 :| IsFirstMinimumAmong(t, k1, |t.order|) && a.value == Nearest(t.order[k1], DistAt(t, k1).value);
      var k2 :| IsFirstMinimumAmong(t, k2, |t.order|) && b.value == Nearest(t.order[k2], DistAt(t, k2).value);
      assert k1 == k2;
    }
  }

  /**
   * What the summary's `nearest` field tells about the table: the id is a key
   * of the table, the distance is that entry's distance, and no entry is
   * nearer.
   */
  lemma NearestIsInTable(t: Table, k: int)
    requires t.Valid() && IsFirstMinimumAmong(t, k, |t.order|)
    ensures t.order[k] in t.entries
    ensures SquaredDistance(t.entries[t.order[k]].pos) == DistAt(t, k)
    ensures forall id :: id in t.entries && SquaredDistance(t.entries[id].pos).Some? ==>
      DistAt(t, k).value <= SquaredDistance(t.entries[id].pos).value
  {
    forall id | id in t.entries && SquaredDistance(t.entries[id].pos).Some?
      ensures DistAt(t, k).value <= SquaredDistance(t.entries[id].pos).value
    {
      var j :| 0 <= j < |t.order| && t.order[j] == id;
      assert DistAt(t, j) == SquaredDistance(t.entries[id].pos);
    }
  }
}
