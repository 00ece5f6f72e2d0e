# Stored-message reviver of commhistory-daemon, in Dafny

This project models `MessageReviver` from commhistory-daemon
(`src/messagereviver.cpp`). When a Telepathy connection is ready, the reviver
reads the connection's `StoredMessages` property over D-Bus. That property lists
tokens of messages the server queued while the client was away. The reviver
keeps the tokens of the previous read per connection object path, as the
*baseline*. It intersects the baseline with each new read. It re-polls after a
timer while the set keeps changing. When a non-empty baseline comes back
unchanged, the set has settled. Then each settled token is looked up in the
local history. Tokens already recorded are *buried* (`ExpungeMessages`). The
others are *revived* (`DeliverStoredMessages`).

Files:

- `settling.dfy`, module `Settling`. The settle rule as pure functions:
  `Changed` is the `modified` flag, `Poll` is the verdict of one successful
  read, and `Cycle` chains polls into a whole cycle. Lemmas cover the
  debounce.
- `bury_revive.dfy`, module `BuryRevive`. The `foreach` loop of
  `handleMessages` is the method `Partition`, written as a loop over the
  settled set. It is specified by the sets `Buried` and `Revived`.
- `reviver.dfy`, module `RTComLogger`. The class `MessageReviver` keeps the
  source's three hashes as map fields: `pending` (`m_Connections`),
  `baseline` (`m_MessageTokens`) and `timers` (`m_TimerConnections`). It has
  one method per handler of the source. A ghost `log` records every request
  sent: property reads, expunge, deliver and timer kills.
- `wrappers.dfy`, module `Wrappers`. `Option`, for the nullable connection
  pointer.

The outside world is passed in at each event as an `Env`. It holds three
functions: connection validity (`isValid`), whether the StoredMessages
interface is present, and the history lookup
(`TrackerIO::getEventByMessageToken`). `startTimer`'s return value is passed in
as the parameter `newTimer`: a fresh id, or 0 when Qt could not start a timer.
Watcher identities are allocated from the counter `nextCall`.

Two behaviours of the code that a reader might not expect:

- An error reply removes only the pending entry. Any stored baseline stays in
  `m_MessageTokens` (lines 74-80). The same happens when a timer fires for a
  connection that is no longer valid (lines 123-128). A later cycle for the
  same object path therefore compares its first read with that older
  baseline. It can act on that first read. `StaleBaselineScenario` proves
  one such sequence of events.
- Nothing prevents two reads or a read and a timer from being outstanding for
  the same connection. `onConnectionReady` starts a read whatever the state.
  The model does not claim "at most one outstanding operation per
  connection".

## Model

| member | source | states |
|---|---|---|
| `Settling.SubsetSize` | src/messagereviver.cpp:96-98 | a subset of the baseline has the baseline's size only when it is the whole baseline, so the size comparison detects every change |
| `Settling.Changed` | src/messagereviver.cpp:91-98 | `modified` holds exactly when there was no baseline or the intersection differs from the baseline; it is false exactly when a non-empty baseline is contained in the new read |
| `Settling.Poll` | src/messagereviver.cpp:91-116 | a read resolves exactly when a non-empty baseline comes back whole, and then settles on that baseline; a first read (no baseline) never resolves: it keeps the read set, or drops an empty read; a later read keeps the intersection, a strict subset of the old baseline; an empty survivor set drops the cycle with no action |
| `Settling.SettledTokensSeenThroughout` | src/messagereviver.cpp:91-129 | over a whole cycle of reads chained through the timer (`Cycle`, which consumes `CycleLength` reads), the settled set is non-empty and is exactly the tokens in the starting baseline (if any) and in every read of the cycle: nothing first seen later is acted on and nothing present throughout is lost; a cycle that starts without a baseline takes at least two reads |
| `Settling.RepeatedPollSettles` | src/messagereviver.cpp:91-116 | two equal non-empty reads in a row always settle the cycle: starting with no baseline they settle on the read set after exactly two reads; starting with a baseline the read keeps part of, they settle on that part, after one read when the baseline came back whole and after two otherwise |
| `Settling.ChangedPollRearms` | src/messagereviver.cpp:95-107 | a read that removes some but not all baseline tokens re-arms with the intersection instead of acting |
| `Settling.ThreePollScenario` | src/messagereviver.cpp:91-116 | reads {A,B,C}, {A,B}, {A,B} settle on {A,B} |
| `BuryRevive.PartitionIsExact` | src/messagereviver.cpp:139-148 | the buried and revived sets are disjoint and cover the settled tokens; a token is buried exactly when the history lookup finds it |
| `BuryRevive.EnumerationLength` | src/messagereviver.cpp:139-148 | a duplicate-free list that names exactly the members of a set has the set's size |
| `BuryRevive.Partition` | src/messagereviver.cpp:139-148 | the loop returns a duplicate-free toBury list naming exactly the settled tokens found in history, and a duplicate-free toRevive list naming exactly the rest; together the lists are as long as the settled set is large |
| `RTComLogger.RequestsShape` | src/messagereviver.cpp:153-161 | for the requests `Requests` of lines 153-161: with the interface missing nothing is sent; otherwise at most an expunge of toBury then a deliver of toRevive, each only if its list is non-empty |
| `RTComLogger.IssuedForMeans` | src/messagereviver.cpp:139-161 | a decision sends at most two requests, expunge before deliver, both for the settled connection and never empty; expunged tokens are settled and in history, delivered tokens settled and not in history; with the interface every settled token is in a request, and without it nothing is sent |
| `RTComLogger.SingleTokenDecision` | src/messagereviver.cpp:139-158 | a decision over one settled token that history lacks, on a connection with the interface, is a single deliver request of that token |
| `RTComLogger.StaleBaselineAfterFailedRead` | src/messagereviver.cpp:74-80 | after ready, a read of {A}, the timer and an error reply, the baseline {A} is still stored while no read or timer is outstanding |
| `RTComLogger.StaleBaselineScenario` | src/messagereviver.cpp:91-116 | a new connection on the same object path then reads {A} once, and that first read settles and delivers A, leaving no baseline, timer or pending read |
| `RTComLogger.MessageReviver.constructor` | src/messagereviver.cpp:38-45 | a new reviver has no pending reads, no baselines, no timers, starts call ids at 0 and has sent nothing |
| `RTComLogger.MessageReviver.OnConnectionReady` | src/messagereviver.cpp:47-54 | a read is issued under a fresh call id only for a non-null, valid connection with the StoredMessages interface; otherwise nothing changes |
| `RTComLogger.MessageReviver.FetchMessages` | src/messagereviver.cpp:56-69 | issues one property read and records its fresh call id against the connection; baselines and timers unchanged |
| `RTComLogger.MessageReviver.OnGetStoredMessages` | src/messagereviver.cpp:71-119 | the pending entry is always removed; an error reply changes nothing else; an invalid connection loses its baseline and gets no request; otherwise the new baseline, timer and requests are those of `Poll`: on re-arm the narrowed baseline is stored and a started timer is recorded, on resolve the baseline is removed and exactly the decision's expunge/deliver requests are sent; every stored baseline stays non-empty |
| `RTComLogger.MessageReviver.SettleOrDecide` | src/messagereviver.cpp:91-116 | with the path's baseline taken out, the new baseline, timer and requests are exactly those of `Poll`'s verdict: nothing kept on drop, the narrowed baseline plus a successfully started timer on re-arm, and on resolve the baseline removed and the decision's requests sent |
| `RTComLogger.MessageReviver.TimerEvent` | src/messagereviver.cpp:121-129 | the timer entry is always removed and the timer killed; a new read is issued exactly when the timer belonged to a still valid connection; baselines unchanged |
| `RTComLogger.MessageReviver.HandleMessages` | src/messagereviver.cpp:131-162 | takes the connection's baseline out of the map and sends exactly the requests of the decision for it (see `IssuedForMeans`); other state unchanged |

## Left out

- `src/logger.cpp` (Telepathy client registration, channel listeners): it is a
  thin adapter with no reconciliation logic and is not part of this model.
- The D-Bus `Properties.Get` call, `QDBusPendingCallWatcher` and reply
  unpacking (lines 58-67, 73, 82): a reply is either `Failed` or a token list.
  The list becomes a set as with `toSet()`.
- Real timers and the 30 000 ms interval (`STORED_MESSAGES_CHECK_INTERVAL`):
  `startTimer`'s result is a parameter, and `TimerEvent` is called from outside.
- The Tracker/`EventModel` history lookup: it is the function `inHistory` of
  `Env`. Connection validity and the interface check are functions there too.
  `hasInterface` and a non-null `interface<>()` are both modelled by
  `storedIf`.
- Logging, `deleteLater` and object lifetime. This includes the watcher that
  is never deleted on the invalid-connection path (lines 86-89).
- `OnGetStoredMessages`: the null dereference at line 83 on a non-error reply
  for an unknown call is excluded by a precondition. The model invents no
  behaviour for it.
- The order in which the `foreach` visits the `QSet`: the lists are
  specified as exact enumerations of sets, in any order.
- At most one outstanding read or timer per connection: the code does not
  enforce it, so it is not stated.
