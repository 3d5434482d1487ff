/**
 * The receive loop and summary of `main` in candidate/neighbor_node.py.
 *
 * The socket is replaced by the finite sequence of what the receive calls
 * return: a timeout, or a datagram together with the clock reading `now`
 * that the loop takes after storing it. A datagram's bytes are summarised by
 * how they decode: not UTF-8, JSON nested too deeply for the decoder, UTF-8
 * but not JSON, or a decoded JSON value.
 * The receive after the last element of the sequence times out.
 */
module Collector {
  import opened Wrappers
  import opened Json
  import opened Validator
  import opened Table
  import opened Distance

  /**
   * `BadUtf8`: `data.decode("utf-8")` raises `UnicodeDecodeError`.
   * `TooDeep`: `json.loads` exceeds the recursion limit on deeply nested
   * arrays or objects and raises `RecursionError`. Line 82 catches neither.
   * `BadJson`: `json.loads` raises `json.JSONDecodeError`, which is caught.
   */
  datatype Payload = BadUtf8 | TooDeep | BadJson | Decoded(msg: Value)

  datatype Event = Timeout | Datagram(now: int, payload: Payload)

  /** The loop's variables: `neighbors` and `first_ts`. */
  datatype LoopState = LoopState(table: Table, firstTs: Option<int>)

  const Initial: LoopState := LoopState(Empty, None)

  /** What one received event does to the loop: go on, leave it normally, or raise. */
  datatype StepResult = Continue(st: LoopState) | Stop(st: LoopState) | Raise

  /**
   * How the loop ends: normally, with the final state and the number of
   * events it consumed, or by the exception of the event at position
   * `consumed - 1`, which `except json.JSONDecodeError` does not catch.
   */
  datatype Outcome = Finished(st: LoopState, consumed: nat) | Raised(consumed: nat)

  predicate IsUndecodable(e: Event) {
    e.Datagram? && (e.payload.BadUtf8? || e.payload.TooDeep?)
  }

  /** The event is a datagram whose decoded message the validator accepts. */
  predicate IsAccepted(e: Event) {
    e.Datagram? && e.payload.Decoded? && Acceptable(e.payload.msg)
  }

  /** One iteration of `while True` (lines 75-111). */
  function Step(st: LoopState, e: Event, window: int): (r: StepResult)
    requires st.table.Valid()
    ensures r.Raise? <==> IsUndecodable(e)
    ensures !r.Raise? ==> r.st.table.Valid()
  {
    match e
    case Timeout => Stop(st)
    case Datagram(now, payload) =>
      match payload
      case BadUtf8 => Raise
      case TooDeep => Raise
      case BadJson => Continue(st)
      case Decoded(msg) =>
        if !Acceptable(msg) then Continue(st)
        else
          var anchor := if st.firstTs.None? then now else st.firstTs.value;
          var st' := LoopState(Upsert(st.table, BeaconOf(msg)), Some(anchor));
          if now - anchor >= window then Stop(st') else Continue(st')
  }

  /** The loop run from event `i` on, in state `st`. */
  function RunAt(trace: seq<Event>, window: int, i: nat, st: LoopState): (r: Outcome)
    requires i <= |trace| && st.table.Valid()
    ensures i <= r.consumed <= |trace|
    ensures r.Finished? ==> r.st.table.Valid()
    ensures r.Raised? ==> i < r.consumed && IsUndecodable(trace[r.consumed - 1])
    decreases |trace| - i
  {
    if i == |trace| then Finished(st, i)
    else
      match Step(st, trace[i], window)
      case Continue(st') => RunAt(trace, window, i + 1, st')
      case Stop(st') => Finished(st', i + 1)
      case Raise => Raised(i + 1)
  }

  /** The whole loop, from an empty table and no anchor. */
  function Run(trace: seq<Event>, window: int): (r: Outcome)
    ensures r.consumed <= |trace|
    ensures r.Finished? ==> r.st.table.Valid()
    ensures r.Raised? ==> 0 < r.consumed && IsUndecodable(trace[r.consumed - 1])
  {
    RunAt(trace, window, 0, Initial)
  }

  /**
   * The loop as the source writes it: `continue` past undecodable and
   * rejected messages, `break` on a timeout or once the window has elapsed.
   */
  method ReceiveLoop(trace: seq<Event>, window: int) returns (r: Outcome)
    ensures r == Run(trace, window)
  {
    var table := Empty;
    var firstTs: Option<int> := None;
    var i := 0;
    while i < |trace|
      invariant i <= |trace| && table.Valid()
      invariant RunAt(trace, window, i, LoopState(table, firstTs)) == Run(trace, window)
    {
      var e := trace[i];
      i := i + 1;
      if e.Timeout? {
        return Finished(LoopState(table, firstTs), i);
      }
      if e.payload.BadUtf8? || e.payload.TooDeep? {
        return Raised(i);
      }
      if e.payload.BadJson? {
        continue;
      }
      var msg := e.payload.msg;
      var valid := Validate(msg);
      if !valid {
        continue;
      }
      table := Upsert(table, BeaconOf(msg));
      var now := e.now;
      if firstTs.None? {
        firstTs := Some(now);
      }
      if now - firstTs.value >= window {
        return Finished(LoopState(table, firstTs), i);
      }
    }
    return Finished(LoopState(table, firstTs), i);
  }
}
