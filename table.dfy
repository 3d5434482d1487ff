/**
 * The neighbor table `neighbors` of candidate/neighbor_node.py: a Python dict
 * from sender id to record. A dict iterates in first-insertion order and
 * overwriting a key keeps its position, so the table is the sequence of keys
 * in that order together with the map of records.
 */
module Table {
  import opened Validator

  datatype Table = Table(order: seq<string>, entries: map<string, Record>) {
    /** The keys in `order` are distinct and are exactly the keys of `entries`. */
    ghost predicate Valid() {
      && (forall i, j :: 0 <= i < j < |order| ==> order[i] != order[j])
      && (forall k :: k in entries <==> k in order)
    }
  }

  /** `neighbors = {}` */
  const Empty: Table := Table([], map[])

  /**
   * `neighbors[b.id] = record`: last received wins, whatever the timestamps;
   * every other entry and every existing position in the iteration order is
   * kept, and a new key goes last.
   */
  function Upsert(t: Table, b: Beacon): (r: Table)
    requires t.Valid()
    ensures r.Valid()
    ensures b.id in r.entries && r.entries[b.id] == b.rec
    ensures forall k :: k != b.id ==> (k in r.entries <==> k in t.entries)
    ensures forall k :: k != b.id && k in t.entries ==> r.entries[k] == t.entries[k]
    ensures |t.order| <= |r.order| && r.order[..|t.order|] == t.order
    ensures |r.order| == if b.id in t.entries then |t.order| else |t.order| + 1
  {
    if b.id in t.entries then Table(t.order, t.entries[b.id := b.rec])
    else Table(t.order + [b.id], t.entries[b.id := b.rec])
  }

  /** The table after the accepted beacons `bs` have been stored, one after another, into an empty one. */
  function Replay(bs: seq<Beacon>): (t: Table)
    ensures t.Valid()
  {
    if bs == [] then Empty else Upsert(Replay(bs[..|bs| - 1]), bs[|bs| - 1])
  }

  /** The ids that occur in `bs`. */
  ghost function Ids(bs: seq<Beacon>): set<string> {
    set j | 0 <= j < |bs| :: bs[j].id
  }

  /** `len(neighbors)`: in a valid table the number of keys equals the length of the iteration order. */
  lemma {:induction false} CountIsOrderLength(t: Table)
    requires t.Valid()
    ensures |t.entries| == |t.order|
  {
    assert t.entries.Keys == set k | k in t.order;
    DistinctCard(t.order);
  }

  lemma {:induction false} DistinctCard(s: seq<string>)
    requires forall i, j :: 0 <= i < j < |s| ==> s[i] != s[j]
    ensures |set k | k in s| == |s|
  {
    if s != [] {
      var p := s[..|s| - 1];
      DistinctCard(p);
      assert (set k | k in s) == (set k | k in p) + {s[|s| - 1]};
      assert s[|s| - 1] !in (set k | k in p);
    }
  }

  lemma IdsSnoc(p: seq<Beacon>, b: Beacon)
    ensures Ids(p + [b]) == Ids(p) + {b.id}
  {
    var bs := p + [b];
    forall id | id in Ids(bs) ensures id in Ids(p) + {b.id} {
      var j :| 0 <= j < |bs| && bs[j].id == id;
      if j < |p| { assert bs[j] == p[j]; }
    }
    forall id | id in Ids(p) ensures id in Ids(bs) {
      var j :| 0 <= j < |p| && p[j].id == id;
      assert bs[j] == p[j];
    }
    assert bs[|p|] == b;
  }

  /** A key is in the table exactly when some stored beacon carried it. */
  lemma {:induction false} ReplayKeys(bs: seq<Beacon>)
    ensures Replay(bs).entries.Keys == Ids(bs)
  {
    if bs != [] {
      var p, b := bs[..|bs| - 1], bs[|bs| - 1];
      assert bs == p + [b];
      ReplayKeys(p);
      IdsSnoc(p, b);
      assert Replay(bs) == Upsert(Replay(p), b);
    }
  }

  /** Last received wins: each key holds the record of the last beacon that carried it. */
  lemma {:induction false} ReplayLastWins(bs: seq<Beacon>, j: nat)
    requires j < |bs|
    requires forall j' :: j < j' < |bs| ==> bs[j'].id != bs[j].id
    ensures bs[j].id in Replay(bs).entries && Replay(bs).entries[bs[j].id] == bs[j].rec
  {
    if j < |bs| - 1 {
      var p := bs[..|bs| - 1];
      assert p[j] == bs[j];
      ReplayLastWins(p, j);
    }
  }

  /** Some beacon before position `j` carries `id`. */
  ghost predicate OccursBefore(bs: seq<Beacon>, id: string, j: int) {
    exists j1 :: 0 <= j1 < j && j1 < |bs| && bs[j1].id == id
  }

  /**
   * `order` is first-insertion order for `bs`: wherever a key occurs among
   * the beacons, every key before it in `order` already occurred earlier.
   */
  ghost predicate InsertionOrdered(bs: seq<Beacon>, order: seq<string>) {
    forall i, k, j2 :: 0 <= i < k < |order| && 0 <= j2 < |bs| && bs[j2].id == order[k] ==>
      OccursBefore(bs, order[i], j2)
  }

  /** The iteration order of the table is the order in which the ids first arrived. */
  lemma {:induction false} ReplayOrder(bs: seq<Beacon>)
    ensures InsertionOrdered(bs, Replay(bs).order)
  {
    if bs != [] {
      var p, b := bs[..|bs| - 1], bs[|bs| - 1];
      assert bs == p + [b];
      ReplayOrder(p);
      ReplayKeys(p);
      UpsertKeepsInsertionOrder(p, b, Replay(p));
    }
  }

  /** Storing one more beacon keeps the table's order the first-insertion order. */
  lemma UpsertKeepsInsertionOrder(p: seq<Beacon>, b: Beacon, t0: Table)
    requires t0.Valid() && t0.entries.Keys == Ids(p) && InsertionOrdered(p, t0.order)
    ensures InsertionOrdered(p + [b], Upsert(t0, b).order)
  {
    var bs, t := p + [b], Upsert(t0, b);
    forall i, k, j2 | 0 <= i < k < |t.order| && 0 <= j2 < |bs| && bs[j2].id == t.order[k]
      ensures OccursBefore(bs, t.order[i], j2)
    {
      assert t.order[i] == t0.order[i];
      assert t.order[i] in t0.entries;
      var j1 :| 0 <= j1 < |p| && p[j1].id == t.order[i];
      if j2 == |p| {
        assert bs[j1] == p[j1];
      } else {
        // `order[k]` occurs in `p`, so it was a key before `b` was stored and keeps its position
        assert p[j2] == bs[j2] && p[j2].id in Ids(p);
        assert k < |t0.order|;
        assert t.order[k] == t0.order[k];
        assert OccursBefore(p, t0.order[i], j2);
        var j1' :| 0 <= j1' < j2 && j1' < |p| && p[j1'].id == t0.order[i];
        assert bs[j1'] == p[j1'];
      }
    }
  }

  /** `len(neighbors)` after storing `bs` is the number of distinct ids among them. */
  lemma ReplayCount(bs: seq<Beacon>)
    ensures |Replay(bs).entries| == |Ids(bs)|
  {
    ReplayKeys(bs);
  }
}
