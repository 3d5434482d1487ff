/**
 * The beacon validator and the record it stores (candidate/neighbor_node.py,
 * lines 92-102). A decoded message is accepted when it is a `dict` whose
 * `id` is a `str`, whose `pos` is a `list` (of any length and contents),
 * whose `speed` is an `int` or `float` and whose `ts` is an `int`; booleans
 * pass both numeric tests.
 */
module Validator {
  import opened Wrappers
  import opened Json

  /** What the table keeps per sender: `{"pos": ..., "speed": float(...), "last_ts": int(...)}`. */
  datatype Record = Record(pos: Value, speed: real, lastTs: int)

  /** An accepted beacon: the sender id and the record stored under it. */
  datatype Beacon = Beacon(id: string, rec: Record)

  /** The validator's table of required keys and accepted types, in the order it checks them. */
  const RequiredKeys: seq<(string, set<PyType>)> :=
    [("id", {PyStr}), ("pos", {PyList}), ("speed", {PyInt, PyFloat}), ("ts", {PyInt})]

  /** The acceptance rule, field by field. */
  predicate Acceptable(msg: Value) {
    && msg.Object?
    && "id" in msg.fields && msg.fields["id"].Str?
    && "pos" in msg.fields && msg.fields["pos"].Array?
    && "speed" in msg.fields && IsNumber(msg.fields["speed"])
    && "ts" in msg.fields && (msg.fields["ts"].Int? || msg.fields["ts"].Bool?)
  }

  /** One row of the required-keys check: the key is present with a value of an accepted type. */
  predicate HasTypedKey(fields: map<string, Value>, key: string, types: set<PyType>) {
    key in fields && IsInstance(fields[key], types)
  }

  /**
   * The validation loop: reject a non-dict, then walk the required keys and
   * stop at the first one that is missing or of the wrong type.
   */
  method Validate(msg: Value) returns (valid: bool)
    ensures valid <==> Acceptable(msg)
  {
    if !msg.Object? {
      return false;
    }
    valid := true;
    var i := 0;
    while i < |RequiredKeys|
      invariant 0 <= i <= |RequiredKeys|
      invariant valid
      invariant forall j :: 0 <= j < i ==> HasTypedKey(msg.fields, RequiredKeys[j].0, RequiredKeys[j].1)
    {
      var (key, types) := RequiredKeys[i];
      if key !in msg.fields || !IsInstance(msg.fields[key], types) {
        RequiredKeysMatchRule(msg, i);
        valid := false;
        break;
      }
      i := i + 1;
    }
    if valid {
      RequiredKeysMatchRule(msg, |RequiredKeys|);
    }
  }

  /**
   * Walking the first `n` rows of the required-keys table passes exactly when
   * the acceptance rule holds for those fields; after all four rows, exactly
   * when the message is acceptable.
   */
  lemma RequiredKeysMatchRule(msg: Value, n: nat)
    requires msg.Object? && n <= |RequiredKeys|
    ensures n == |RequiredKeys| ==>
      ((forall j :: 0 <= j < n ==> HasTypedKey(msg.fields, RequiredKeys[j].0, RequiredKeys[j].1)) <==> Acceptable(msg))
    ensures n < |RequiredKeys| && !HasTypedKey(msg.fields, RequiredKeys[n].0, RequiredKeys[n].1) ==> !Acceptable(msg)
  {
    var f := msg.fields;
    assert RequiredKeys[0] == ("id", {PyStr});
    assert RequiredKeys[1] == ("pos", {PyList});
    assert RequiredKeys[2] == ("speed", {PyInt, PyFloat});
    assert RequiredKeys[3] == ("ts", {PyInt});
    if n == |RequiredKeys| && Acceptable(msg) {
      forall j | 0 <= j < n ensures HasTypedKey(f, RequiredKeys[j].0, RequiredKeys[j].1) {
        assert j == 0 || j == 1 || j == 2 || j == 3;
      }
    }
  }

  /** The beacon an accepted message stores: `pos` as received, `float(speed)`, `int(ts)`. */
  function BeaconOf(msg: Value): (b: Beacon)
    requires Acceptable(msg)
    ensures b.id == msg.fields["id"].s
    ensures b.rec.pos == msg.fields["pos"]
    ensures Some(b.rec.speed) == AsReal(msg.fields["speed"])
    ensures Some(b.rec.lastTs) == AsInt(msg.fields["ts"])
  {
    Beacon(msg.fields["id"].s,
           Record(msg.fields["pos"], AsReal(msg.fields["speed"]).value, AsInt(msg.fields["ts"]).value))
  }
}
