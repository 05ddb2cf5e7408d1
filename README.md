# CSMA/CD simulation: node state machine and tick driver

This project models the logic of a small CSMA/CD (carrier-sense multiple
access with collision detection) simulation written in Java. A fixed list
of five stations advances once per timer tick. A "Send Packet" button
starts a transmission on one idle station picked at random.

Each station is a four-state machine: IDLE, TRANSMITTING, BACKOFF and
COLLISION. It has a backoff countdown `backoffTime`. On every tick,
`update()` does one of the following:
- it leaves an idle station alone;
- it ends a transmission, either successfully (back to IDLE) or with a
  collision (to COLLISION with a fresh random countdown);
- it counts a running countdown down by one;
- it ends a countdown at zero: BACKOFF retransmits, and COLLISION starts a
  BACKOFF with a second fresh countdown.

Files:

- `node.dfy`, module `CsmaNode`, contains:
  - the states, the per-tick random inputs (`Draws`), the value of a station (`NodeView`) and the log events (`Event`);
  - the specification functions `Step` (one tick), `Emitted` (the event a tick logs) and `Run` (many ticks);
  - the transition table `Allowed`, stated independently as a relation;
  - the class `Node`, whose fields `state` and `backoffTime` its methods update in place.
- `simulation.dfy`, module `CsmaSimulation`, contains:
  - the specification functions `IdleIndices` (which stations are idle, in list order), `AfterSend`, `AfterTick` and `TickLog`;
  - the class `Simulation`, which holds the station list as a `seq<Node>`. Its methods `InitializeSimulation`, `GetRandomIdleNode`, `SendPacket` and `UpdateSimulation` are proved against the specification functions. The first two and the last keep the loops of the original.

Every `Math.random()` call is an explicit input:
- `Draws.collided` is the `< 0.2` collision coin;
- `Draws.backoff` is the `(int)(Math.random() * MAX_BACKOFF_TIME)` draw, which lies in `0..9`;
- `k` is the index into the list of idle stations, which lies in `0 .. count-1`.

`UpdateSimulation` takes one `Draws` per station. The log lines become `Event` values, which the methods return.

The counter invariant `Inv` says two things. First, `0 <= backoffTime < 10`. Second, `backoffTime == 0` whenever the station is IDLE or TRANSMITTING. It holds for a new station. Every tick keeps it when the draws are in range, and so does "send packet".

`startTransmission` (src/CSMA_CD_Simulation.java:29-33) has no idleness check: it sets TRANSMITTING whatever the state was. It is called from `sendPacket` (line 178) for an idle station, and from the BACKOFF branch of `update()` (line 68) when a countdown ends. The model follows this, so `Node.StartTransmission` has no precondition. The guarantee that `SendPacket` only starts idle stations comes from `GetRandomIdleNode`.

The model also keeps the double draw as written. A collision draws one countdown on entering COLLISION and draws a new one on leaving it for BACKOFF.

## Model

| member | source | states |
|---|---|---|
| `CsmaNode.NewNode` | src/CSMA_CD_Simulation.java:23-27 | a new station has the given id, is IDLE with countdown 0, and satisfies the counter invariant |
| `CsmaNode.Node.constructor` | src/CSMA_CD_Simulation.java:23-27 | the constructed object's value is `NewNode(id)` |
| `CsmaNode.Node.StartTransmission` | src/CSMA_CD_Simulation.java:29-33 | state becomes TRANSMITTING from any state (no idleness precondition); countdown untouched; logs "starts transmission" |
| `CsmaNode.Node.StartBackoff` | src/CSMA_CD_Simulation.java:35-40 | state becomes BACKOFF and the countdown becomes the drawn value, which is logged |
| `CsmaNode.Node.HandleCollision` | src/CSMA_CD_Simulation.java:42-47 | state becomes COLLISION and the countdown becomes the drawn value, which is logged |
| `CsmaNode.Node.HandleSuccessfulTransmission` | src/CSMA_CD_Simulation.java:49-53 | state becomes IDLE and the countdown is untouched; logs success |
| `CsmaNode.Node.Update` | src/CSMA_CD_Simulation.java:55-81 | the station's new value is `Step` of its old value, and the event returned is the one `Emitted` gives |
| `CsmaNode.Step` | src/CSMA_CD_Simulation.java:55-81 | one tick keeps the id and preserves the counter invariant (in bounds; zero in IDLE/TRANSMITTING) for draws in range |
| `CsmaNode.Emitted` | src/CSMA_CD_Simulation.java:55-81 | a tick logs an event exactly when the state changes, and that event names the station's new state and countdown |
| `CsmaNode.StepAllowed` | src/CSMA_CD_Simulation.java:55-81 | every tick follows the transition table: IDLE unchanged; TRANSMITTING to COLLISION with an in-range countdown or to IDLE with the countdown untouched; a positive countdown goes down by one in the same state; at 0, BACKOFF becomes TRANSMITTING with the countdown left at 0, and COLLISION becomes BACKOFF with an in-range countdown |
| `CsmaNode.AllowedByStep` | src/CSMA_CD_Simulation.java:55-81 | conversely, every move of the transition table is taken by some choice of in-range draws |
| `CsmaNode.RunPreservesInv` | src/CSMA_CD_Simulation.java:29-53 | the counter invariant holds after any number of ticks with in-range draws |
| `CsmaNode.CountdownStays` | src/CSMA_CD_Simulation.java:66-79 | a BACKOFF or COLLISION station with countdown k stays in that state for the first k ticks, losing exactly one per tick, whatever is drawn |
| `CsmaNode.CountdownEnds` | src/CSMA_CD_Simulation.java:66-79 | on tick k+1 the countdown ends in a state change: BACKOFF becomes TRANSMITTING with countdown 0; COLLISION becomes BACKOFF with the last tick's draw |
| `CsmaSimulation.InitialNodes` | src/CSMA_CD_Simulation.java:168-173 | the initial list has the given number of stations, the id of each equals its position, all are IDLE, all satisfy the invariant |
| `CsmaSimulation.Simulation.InitializeSimulation` | src/CSMA_CD_Simulation.java:168-173 | builds `NUM_NODES` fresh stations in a loop; the list's value is `InitialNodes(5)` |
| `CsmaSimulation.Simulation.constructor` | src/CSMA_CD_Simulation.java:156 | a new simulation holds the initial stations |
| `CsmaSimulation.IdleIndices` | src/CSMA_CD_Simulation.java:183-188 | every listed position is in range and names an idle station |
| `CsmaSimulation.IdleIndicesComplete` | src/CSMA_CD_Simulation.java:183-188 | every idle station is listed, and the list is in increasing (list) order |
| `CsmaSimulation.IdleIndicesRank` | src/CSMA_CD_Simulation.java:190-192 | entry k names the k-th idle station: it is idle and exactly k idle stations precede it |
| `CsmaSimulation.NoIdleIndices` | src/CSMA_CD_Simulation.java:190-195 | the idle list is empty exactly when no station is idle |
| `CsmaSimulation.Simulation.GetRandomIdleNode` | src/CSMA_CD_Simulation.java:182-196 | returns null iff the idle list is empty (by `NoIdleIndices`, iff no station is idle); otherwise returns the station at entry k of the idle list, which is idle |
| `CsmaSimulation.SendFrame` | src/CSMA_CD_Simulation.java:175-180 | if some station is idle, exactly the selected one goes from IDLE to TRANSMITTING and every other station keeps its state and countdown; if none is idle, nothing changes |
| `CsmaSimulation.SendPreserves` | src/CSMA_CD_Simulation.java:175-180 | "send packet" keeps every id equal to its position and keeps the counter invariant of every station |
| `CsmaSimulation.Simulation.SendPacket` | src/CSMA_CD_Simulation.java:175-180 | the stations' new values are `AfterSend` of the old ones; the event is "starts transmission" for the selected station, or none |
| `CsmaSimulation.AfterTick` | src/CSMA_CD_Simulation.java:198-202 | a tick keeps the number of stations |
| `CsmaSimulation.AfterTickPointwise` | src/CSMA_CD_Simulation.java:198-202 | the tick result is the pointwise `Step` of each station with its own draws |
| `CsmaSimulation.TickIndependent` | src/CSMA_CD_Simulation.java:198-202 | a station's result depends only on its own value and draws, not on any other station |
| `CsmaSimulation.TickPreserves` | src/CSMA_CD_Simulation.java:198-202 | a tick keeps the number of stations and their ids, and preserves every station's counter invariant for in-range draws |
| `CsmaSimulation.TickLog` | src/CSMA_CD_Simulation.java:198-202 | a tick logs at most one event per station, and every logged event is one some station emits |
| `CsmaSimulation.TickLogSnoc` | src/CSMA_CD_Simulation.java:198-202 | the log of the first i+1 stations is the log of the first i followed by station i's event, if any: the log is every station's event concatenated in list order |
| `CsmaSimulation.TickLogPrefix` | src/CSMA_CD_Simulation.java:198-202 | the events of the first m stations form a prefix of the tick's log |
| `CsmaSimulation.TickLogAt` | src/CSMA_CD_Simulation.java:198-202 | every event a station emits is in the log, at the position right after the events of the stations before it |
| `CsmaSimulation.Simulation.UpdateSimulation` | src/CSMA_CD_Simulation.java:198-202 | calls `update()` once per station in list order; the stations' new values are `AfterTick` of the old ones, and the returned log is `TickLog` |

## Left out

- Rendering: the `NodePanel` painting and the colour of each state (src/CSMA_CD_Simulation.java:84-125) only draw the stations.
- UI wiring: the window, text area, button, action listener, the one-second `javax.swing.Timer` and `main` (src/CSMA_CD_Simulation.java:129-166, 204-211). The model has no scheduler. A tick is a call to `UpdateSimulation`, and a button press is a call to `SendPacket`.
- Logging and repainting: `logTextArea.append` and `nodePanel.repaint()` are I/O. The model returns the event each log line stands for, not its text.
- Randomness: `Math.random()` and the `< 0.2` comparison are replaced by the inputs `Draws` and `k`. There are no probabilistic or fairness claims about the collision rate or the choice of station.
- Integer width: Java `int` is 32 bits, and the model uses unbounded `int`. Every reachable countdown lies in `0..9` (`Inv`), and ids lie in `0..4`, so no wrap-around can occur.
- Concurrency: the original runs ticks and button presses on the Swing event thread, one at a time. The model treats each call as atomic.
