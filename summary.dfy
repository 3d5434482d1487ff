/**
 * The summary `main` of candidate/neighbor_node.py builds after the receive
 * loop (lines 116-125), and the whole run from the first receive to the
 * printed line or the uncaught exception.
 */
module Summary {
  import opened Wrappers
  import opened Table
  import opened Distance
  import opened Collector

  const Topic: string := "/v2x/neighbor_summary"

  /**
   * The printed record. `nearest` carries the squared distance; `ts` is the
   * clock reading taken when the summary is built.
   */
  datatype Summary = Summary(topic: string, count: nat, nearest: Option<Nearest>, ts: int)

  /** How the process ends: one summary line and exit status 0, or an uncaught exception. */
  datatype Exit = Printed(summary: Summary) | UnicodeDecodeError | RecursionError

  /** The summary of a final table: its size and its nearest neighbor. */
  method Summarize(t: Table, now: int) returns (s: Summary)
    requires t.Valid()
    ensures s.topic == Topic && s.ts == now
    ensures s.count == |t.entries| == |t.order|
    ensures IsNearestAnswer(t, s.nearest)
  {
    var nn := NearestNeighbor(t);
    CountIsOrderLength(t);
    s := Summary(Topic, |t.entries|, nn, now);
  }

  /**
   * `main()` with the socket replaced by `trace`, the window by `window` and
   * the final clock reading by `summaryNow`: it raises exactly when the loop
   * does, with the exception of the last datagram received, and otherwise
   * prints the summary of the loop's final table.
   */
  method RunCollector(trace: seq<Event>, window: int, summaryNow: int) returns (x: Exit)
    ensures Run(trace, window).Raised? <==> !x.Printed?
    ensures Run(trace, window).Raised? ==>
      var e := trace[Run(trace, window).consumed - 1];
      && (x.UnicodeDecodeError? <==> e.payload.BadUtf8?)
      && (x.RecursionError? <==> e.payload.TooDeep?)
    ensures Run(trace, window).Finished? ==>
      && x.Printed?
      && x.summary.topic == Topic && x.summary.ts == summaryNow
      && x.summary.count == |Run(trace, window).st.table.entries|
      && IsNearestAnswer(Run(trace, window).st.table, x.summary.nearest)
  {
    var r := ReceiveLoop(trace, window);
    if r.Raised? {
      if trace[r.consumed - 1].payload.BadUtf8? {
        return UnicodeDecodeError;
      }
      return RecursionError;
    }
    var s := Summarize(r.st.table, summaryNow);
    return Printed(s);
  }
}
