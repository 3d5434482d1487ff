# Neighbor table of a V2X beacon collector

`candidate/neighbor_node.py` listens for vehicle beacons for about one second.
A beacon is a JSON object `{"id", "pos": [x, y], "speed", "ts"}`. The program
keeps the last beacon received from each vehicle. When the window closes, or
when no datagram arrives in time, it prints one summary line: the topic, the
number of vehicles, the vehicle nearest the origin (or `null`), and a
timestamp.

This Dafny project models that program without the socket or the clock.

- `Json` (`json.dfy`): the decoded JSON value and Python's `isinstance` test
  over it. A JSON boolean passes the `int` test, as it does in Python.
- `Validator` (`validator.dfy`): the required-keys check.
  - `Validate` is the loop with the `valid` flag.
  - `Acceptable` is the rule that loop decides.
  - `BeaconOf` is the record the program stores.
- `Table` (`table.dfy`): the `neighbors` dict.
  - It is an ordered key sequence plus a map, because dict iteration order (order of first insertion) decides ties.
  - `Upsert` is the write at line 102.
  - `Replay` is a sequence of such writes.
- `Distance` (`distance.dfy`): `euclidean_dist_to_origin` and `nearest_neighbor`.
  - A distance is an exact squared norm.
  - `None` stands for the `inf` sentinel.
  - `NearestNeighbor` is the running-minimum loop.
- `Collector` (`collector.dfy`): the `while True` receive loop over a finite trace of events.
  - An event is a timeout or a datagram carrying the clock reading and its decoding outcome.
  - `Step` is one iteration.
  - `Run` is the loop as a function.
  - `ReceiveLoop` is the loop as a method.
- `LoopProperties` (`loop_properties.dfy`): a description of the loop that does not mention the loop.
  - The state is the accepted beacons of the consumed prefix, replayed in arrival order, plus the clock reading of the first accepted one.
  - The loop consumes events up to and including the first event that ends it.
  - Also proved here: the properties of the window anchor, and that the final table keeps the last beacon per vehicle.
- `Summary` (`summary.dfy`): the summary record and the whole of `main`.
- `Scenarios` (`scenarios.dfy`): concrete runs of the model.

Where the code is looser than its own docstring, the model follows the code:

- `pos` is only checked to be a list. A three-element or string-coordinate `pos` is stored and counted, but it is never the nearest. So a summary can show `count > 0` with `nearest: null`.
- A datagram that is not UTF-8 raises `UnicodeDecodeError`. Line 82 catches only `json.JSONDecodeError`, so the program ends with the exception and prints nothing.
- The same holds for a payload nested too deeply for `json.loads`: it raises `RecursionError`, which line 82 does not catch either.

## Model

| member | source | states |
|---|---|---|
| Validator.Validate | candidate/neighbor_node.py:92-101 | the message is accepted iff it is an object with a `str` id, a `list` pos, an `int`/`float` speed and an `int` ts, booleans counting as ints; the first failing key rejects the whole message |
| Validator.RequiredKeysMatchRule | candidate/neighbor_node.py:94-99 | walking the four required keys in order decides the same rule: all four typed keys present means accepted, any one missing or mistyped means rejected |
| Validator.BeaconOf | candidate/neighbor_node.py:102 | the stored record keeps the message's `id` and `pos` as they are, `float(speed)` and `int(ts)` |
| Table.Upsert | candidate/neighbor_node.py:102 | the id maps to the new record; every other key and its record are unchanged; the existing iteration order is a prefix of the new one, which grows by one exactly when the id is new; the ordered-dict invariant is kept |
| Table.ReplayKeys | candidate/neighbor_node.py:102 | after a sequence of writes the keys are exactly the ids written |
| Table.ReplayLastWins | candidate/neighbor_node.py:102 | each id holds the record of its last write, even when that write carries an older `ts` |
| Table.ReplayOrder | candidate/neighbor_node.py:56 | the iteration order lists ids by their first write: an earlier id was first written before a later one |
| Table.ReplayCount | candidate/neighbor_node.py:120 | the table size is the number of distinct ids written |
| Table.CountIsOrderLength | candidate/neighbor_node.py:120 | `len(neighbors)` equals the number of keys in iteration order |
| Distance.SquaredDistance | candidate/neighbor_node.py:40-49 | the sentinel is returned iff `pos` is not a list, does not have exactly two elements, or has an element that is not int/float/bool; otherwise the result is x*x + y*y, which is never negative |
| Distance.NormOrderIsSquareOrder | candidate/neighbor_node.py:49 | for exact nonnegative norms, comparing the norms is the same as comparing their squares, so over exact values the squared model picks the same minimum |
| Distance.NearestNeighbor | candidate/neighbor_node.py:51-64 | the result is `None` iff no entry has a finite distance; otherwise it is the first entry in iteration order with the least distance, with that distance |
| Distance.NearestAnswerIsUnique | candidate/neighbor_node.py:59-61 | the first-minimum answer is unique, so a tie goes to the entry inserted first |
| Distance.NearestIsInTable | candidate/neighbor_node.py:62-63 | the returned id is a key of the table, its distance is that entry's distance, and no entry with a finite distance is closer |
| Collector.Step | candidate/neighbor_node.py:75-111 | one iteration raises exactly on a datagram that is not UTF-8 or is nested too deeply, and otherwise keeps the ordered-dict invariant of the table |
| Collector.Run | candidate/neighbor_node.py:74-111 | the loop consumes no more events than the trace holds; when it raises, the last event it consumed is the one that raised; otherwise its final table satisfies the ordered-dict invariant |
| Collector.ReceiveLoop | candidate/neighbor_node.py:72-114 | the loop with `continue`/`break`, the validator and the upsert computes exactly `Run` |
| LoopProperties.RunConforms | candidate/neighbor_node.py:74-111 | the loop raises exactly at a first halting event that is not UTF-8 or is nested too deeply; otherwise it stops right after the first timeout or window-closing beacon, or at the end of the trace, with the table of the accepted beacons consumed and the anchor of the first of them |
| LoopProperties.AnchorIsFirstAccepted | candidate/neighbor_node.py:106-108 | the anchor is absent iff no beacon was accepted; otherwise it is the clock reading at the first accepted beacon |
| LoopProperties.RejectedChangesNothing | candidate/neighbor_node.py:80-83 | an undecodable-JSON, non-object or rejected message continues the loop and changes neither the table nor `first_ts` |
| LoopProperties.AnchorIsSetOnce | candidate/neighbor_node.py:107-108 | once `first_ts` is set, no later iteration changes it |
| LoopProperties.ReplayIsLastReceived | candidate/neighbor_node.py:102 | the table after the accepted beacons has their ids as keys, the last beacon per id, first-arrival iteration order, and as many entries as distinct ids |
| LoopProperties.FinalStateIsStateAfter | candidate/neighbor_node.py:74-111 | when the loop ends normally, its table and `first_ts` are those the consumed events build |
| LoopProperties.FinalTableIsReplay | candidate/neighbor_node.py:74-111 | the final table is the accepted beacons among the consumed events, written in arrival order |
| LoopProperties.WindowAnchorsOnFirstAccepted | candidate/neighbor_node.py:106-108 | at the end, `first_ts` is absent iff nothing was accepted (the table is then empty); otherwise it is the clock reading of the first accepted beacon |
| LoopProperties.WindowClosingBeaconIsStored | candidate/neighbor_node.py:102-111 | when the last consumed event is an accepted beacon, such as the one that closed the window, its record is in the final table |
| Summary.Summarize | candidate/neighbor_node.py:116-123 | the summary has the fixed topic, the given timestamp, `count` equal to the table size, and as `nearest` the first-minimum answer for the table |
| Summary.RunCollector | candidate/neighbor_node.py:66-125 | `main` ends with an exception iff the loop raises: `UnicodeDecodeError` when the last datagram received is not UTF-8, `RecursionError` when it is nested too deeply; otherwise it prints the summary of the loop's final table |
| Scenarios.OneBeaconThenTimeout | candidate/neighbor_node.py:74-121 | one beacon at (3, 4) and then a timeout give one neighbor, which is the nearest at squared distance 25 |
| Scenarios.NoBeaconTimesOut | candidate/neighbor_node.py:76-78 | a timeout before any beacon ends the loop with an empty table, no anchor and no nearest neighbor |
| Scenarios.TieGoesToFirstInserted | candidate/neighbor_node.py:59-61 | with squared distances 25, 9, 9 inserted as A, B, C, the nearest is B |
| Scenarios.OlderBeaconStillOverwrites | candidate/neighbor_node.py:102 | a second beacon for the same id with an older `ts` replaces the first |
| Scenarios.MalformedThenValid | candidate/neighbor_node.py:80-101 | bad JSON, a non-object and an object lacking keys are skipped, and the window anchors on the later valid beacon |
| Scenarios.MalformedPositionIsStoredNotNearest | candidate/neighbor_node.py:44-48 | a three-element and a string-coordinate `pos` are both stored and counted, yet the table has no nearest neighbor |
| Scenarios.BooleansPassAsNumbers | candidate/neighbor_node.py:94-97 | `speed: true`, `ts: false` and `pos: [true, false]` are accepted as 1.0, 0 and a point at distance 1 |
| Scenarios.NonUtf8DatagramRaises | candidate/neighbor_node.py:81-83 | a datagram that is not UTF-8 ends the run with the exception, and the datagram after it is never received |
| Scenarios.DeeplyNestedDatagramRaises | candidate/neighbor_node.py:81-83 | a datagram nested too deeply for the decoder ends the run with the exception, and the datagram after it is never received |
| Scenarios.WindowEndsOnFirstLateBeacon | candidate/neighbor_node.py:106-111 | with the anchor at 0, the beacon at 999 continues the loop; the beacon at 1000 is stored and ends it; the beacon at 1001 is never received |

## Left out

- The UDP socket is not modelled: creation, `bind` to 127.0.0.1:5005, `settimeout(1.5)`, `recvfrom(4096)` and `close` in the `finally` block. A receive timeout is a `Timeout` event. A received datagram is a `Datagram` event. The end of a finite trace is treated like a timeout.
- The clock `now_ms` is not modelled. Each datagram event carries the clock reading taken after it is handled. The summary timestamp is a parameter.
- `json.loads` and `json.dumps` are not modelled. A datagram carries its decoding outcome: not UTF-8, nested too deeply, not JSON, or a decoded value. Python's `NaN`/`Infinity` literals and duplicate keys are the library's business.
- The nesting depth at which `json.loads` raises `RecursionError` is not modelled. It depends on the interpreter's recursion limit, so the trace says which datagrams hit it.
- Floating point is not modelled. Floats are exact reals, and `float('inf')` is `None`.
- SquaredDistance: the model returns the exact squared norm, not `math.hypot`'s rounded square root, and the summary's `dist` is that squared value. `NormOrderIsSquareOrder` shows that exact norms and their squares order entries alike.
- NearestNeighbor: ties created by rounding are not modelled. Two norms that round to the same float tie in the source, and strict `<` keeps the earlier entry. The model compares exact squares, so it picks the entry with the smaller square. For example, `[1.0, 1e-9]` inserted before `[1, 0]`: both `hypot` values are `1.0`, so the source keeps the first entry, while the model picks the second.
- SquaredDistance: the model does not raise the `OverflowError` that `hypot` raises on integers too large for a float.
- BeaconOf: the model does not raise the `OverflowError` that `float(speed)` raises on a huge integer speed.
- `print` and `sys.exit` are not modelled. The printed line is the `Printed` summary, and exit status 0 goes with it.
- `COLLECT_WINDOW_MS` is the `window` parameter of the loop. The scenarios use 1000.
