# Nazdar baby: table countdowns, as a Dafny model

This project models two sequential state machines from the server of the card game
"Nazdar baby".

- **The countdown multiplexer** (`CountdownService`). One periodic timer drives every
  registered countdown task. Tasks are keyed by their listener, one task per listener.
  Module `Countdown`, file `countdown.dfy`.
- **The per-table lifecycle** (`Table`). Module `Provider`, file `table.dfy`. It covers:
  - the table's "new game" countdown, which can be started, stopped and expire;
  - the checkboxes that display the countdown, kept as a bounded first-in-first-out list;
  - the click quorum for the "next" button;
  - the rule that starts a game;
  - the notification throttle.

`wrappers.dfy` holds the `Option` type both modules use.

## How the model is built

**Countdown service.**
- The registered tasks are a `map<Listener, Task>` field. A task keeps only what the service reads
  and changes: its listener key, its remaining counter, its cancelled flag and its listening flag.
- The executor field becomes the boolean `timerPresent`. The ghost counter `timersStarted` counts
  how many executors were created.
- Each hook the service invokes (`eachRun`, `finalRun`) is appended to the ghost log `hooks`.
  `EachRun` records the counter value the hook sees, which is the value before the decrement.
- One tick (`Run`) is a loop over an iteration order that visits every entry exactly once. It is
  specified by two functions:
  - `Tick` folds the loop body `Step` over that order.
  - `Advance` and `Hooks` say, task by task, what one tick does. They are written independently
    of the loop.
- The lemmas `TickPerKey` and `TickMatchesReference` prove that the two descriptions agree. The
  per-task properties follow from them: cancelled tasks get no hooks, `finalRun` runs exactly on
  expiry, and the result does not depend on the iteration order.
- `Valid()` says that every task is filed under its own listener and that the timer exists iff
  the map is non-empty. Every operation preserves it.

**Table.**
- `Table` is a class whose fields the methods update in place. Users are value records holding
  the flags the table reads and writes: ready, logged out, new game, and a pending action.
- `users` is the roster the user provider holds. The *playing users* (`PlayingUsers`) are the
  roster members that have not logged out.
- The game appears as the `gameInProgress` flag and the `matchUsers` sequence.
- A checkbox is an object with a mutable `text` (its label).
- The executor handle is `NoHandle`, or `Handle(isShutdown)`. The countdown is running iff the
  handle is `Handle(false)`.
- Broadcasts are appended to the ghost log `broadcasts`.
- Each method that updates users is proved against `MapUsers` applied to a per-user update
  function. `GetInfo`, which only counts them, is proved against `CountReady`. Lemmas about those functions carry the start-game rule.
- `nextButtonClickCounter` is a Java `int`: the `Int32` newtype, and `++` wraps (`Increment`).
  The `%` operator is Java's truncating remainder (`JavaRemainder`).

**What the code does at its edges, and the model with it:**
- The code evicts a checkbox only when the list length *equals* the participant count
  (Table.java:70). So "at most one checkbox per participant" holds only while that count does not
  shrink (`CheckboxesStayBounded`). If the count shrinks below the list length,
  the list grows with every addition.
- With no participants and an empty list, the eviction's `remove(0)` throws. `AddCountdownCheckbox`
  reports that case as `outOfBounds`.
- With no match users, the click counter is incremented and then the division throws.
  `IncreaseAndCheckNextButtonClickCounter` returns `None` in that case.
- `run` does not catch exceptions thrown by hooks (CountdownService.java:18-33); the model's hooks
  cannot fail.
- An expiring task gets its `finalRun` even when it is no longer listening: the listening test is
  only the `else if` at CountdownService.java:28 (`FinalRunExactlyWhenExpired`).

## Model

| member | source | states |
|---|---|---|
| `Countdown.CountdownService.constructor` | src/main/java/com/lafi/cardgame/nazdarbaby/countdown/CountdownService.java:13-15 | The service starts with no tasks and no timer, which satisfies the invariant "timer present iff some task is registered". |
| `Countdown.CountdownService.Run` | src/main/java/com/lafi/cardgame/nazdarbaby/countdown/CountdownService.java:17-33 | One tick leaves exactly `Survivors` of the old map: each task advanced by `Advance`. It appends exactly the hooks `Tick` gives, creates no timer, and keeps "timer present iff map non-empty". |
| `Countdown.CountdownService.RunTask` | src/main/java/com/lafi/cardgame/nazdarbaby/countdown/CountdownService.java:19-31 | The loop body on one entry changes the map and the hook log exactly as `Step` says. It keeps the invariant. |
| `Countdown.CountdownService.AddCountdownTask` | src/main/java/com/lafi/cardgame/nazdarbaby/countdown/CountdownService.java:35-41 | A new task is stored under its listener, replacing any earlier one, and no other entry changes. Afterwards the timer is present. A timer is created only if none existed. |
| `Countdown.CountdownService.RemoveCountdownTask` | src/main/java/com/lafi/cardgame/nazdarbaby/countdown/CountdownService.java:43-51 | Only its listener key is deleted. The timer remains iff entries remain. The call fails on a null executor exactly when the map was already empty. |
| `Countdown.CountdownService.StartCountdown` | src/main/java/com/lafi/cardgame/nazdarbaby/countdown/CountdownService.java:53-58 | Afterwards a timer exists. A new one is created only when none existed. |
| `Countdown.StepOther` | src/main/java/com/lafi/cardgame/nazdarbaby/countdown/CountdownService.java:19-31 | Visiting one listener leaves every other listener's entry and hooks unchanged. |
| `Countdown.StepSelf` | src/main/java/com/lafi/cardgame/nazdarbaby/countdown/CountdownService.java:20-30 | Visiting a listener leaves its entry as `Advance` says and invokes exactly the hooks `Hooks` says. |
| `Countdown.TickPerKey` | src/main/java/com/lafi/cardgame/nazdarbaby/countdown/CountdownService.java:19-32 | For any order without repeats: a visited entry ends as `Advance` says, with hooks exactly `Hooks`. An unvisited entry is untouched and gets no hook. |
| `Countdown.TickMatchesReference` | src/main/java/com/lafi/cardgame/nazdarbaby/countdown/CountdownService.java:19-32 | A tick visiting every entry once leaves `Survivors` in the map. Each task gets exactly its `Hooks`, and a listener without a task gets none. |
| `Countdown.TickOrderIndependent` | src/main/java/com/lafi/cardgame/nazdarbaby/countdown/CountdownService.java:19 | Two iteration orders of the map give the same resulting map and the same hooks per task. |
| `Countdown.CanceledTaskGetsNoHooks` | src/main/java/com/lafi/cardgame/nazdarbaby/countdown/CountdownService.java:20-21 | A cancelled task is removed and gets no hook: no `eachRun`, no decrement, no `finalRun`. |
| `Countdown.LiveTaskRunsOnce` | src/main/java/com/lafi/cardgame/nazdarbaby/countdown/CountdownService.java:23-25 | A task that is not cancelled gets its `eachRun` first, seeing the counter before the decrement, and only once. |
| `Countdown.FinalRunExactlyWhenExpired` | src/main/java/com/lafi/cardgame/nazdarbaby/countdown/CountdownService.java:25-27 | `finalRun` is invoked on a task iff it is not cancelled and its decremented counter is below 0. Then its hooks are exactly `eachRun` followed by one `finalRun`, and that task is gone from the map. |
| `Countdown.CountingTaskDroppedIffNotListening` | src/main/java/com/lafi/cardgame/nazdarbaby/countdown/CountdownService.java:25-30 | A task not cancelled whose decremented counter is still at least 0 gets no `finalRun`. It is removed iff it is not listening. Otherwise it stays with only its counter lowered by one. |
| `Countdown.TickOnlyDecrementsOrDrops` | src/main/java/com/lafi/cardgame/nazdarbaby/countdown/CountdownService.java:19-32 | A tick adds no task. Every entry left after it was there before, listening and not cancelled, with its counter one lower and still non-negative. |
| `Provider.Table.constructor` | src/main/java/com/lafi/cardgame/nazdarbaby/provider/Table.java:36-42 | A new table has no game in progress, no countdown and no checkboxes, and its click counter is 0. Its last notification time is one throttle period before `now`. |
| `Provider.Table.AddCountdownCheckbox` | src/main/java/com/lafi/cardgame/nazdarbaby/provider/Table.java:64-75 | With no countdown running, nothing changes. Otherwise the list becomes `WithCheckbox` of the old list, for the match users' count during a game or the playing users' count otherwise. The call fails when the eviction hits an empty list. |
| `Provider.WithCheckbox` | src/main/java/com/lafi/cardgame/nazdarbaby/provider/Table.java:69-74 | The new checkbox is last. If the list already had one checkbox per participant its length stays at that count; otherwise it grows by one. There is no result exactly when the list is empty and there are no participants. |
| `Provider.CheckboxEvictionIsFifo` | src/main/java/com/lafi/cardgame/nazdarbaby/provider/Table.java:70-74 | The new list is the newest part of the old list followed by the new checkbox. Only the oldest checkbox can be evicted. |
| `Provider.CheckboxesStayBounded` | src/main/java/com/lafi/cardgame/nazdarbaby/provider/Table.java:69-74 | If the list holds at most one checkbox per participant, so does the new list, and with participants present the addition always succeeds. |
| `Provider.FifoEvictionKeepsNewest` | src/main/java/com/lafi/cardgame/nazdarbaby/provider/Table.java:70-74 | Five additions with three participants leave the last three checkboxes in arrival order. |
| `Provider.Table.StartNewGameCountdown` | src/main/java/com/lafi/cardgame/nazdarbaby/provider/Table.java:77-85 | If a countdown is already running, nothing changes and no countdown is scheduled. Otherwise the checkbox list is emptied and exactly one countdown is scheduled. Either way a countdown is running afterwards. |
| `Provider.Table.EveryRun` | src/main/java/com/lafi/cardgame/nazdarbaby/provider/Table.java:88-96 | Every listed checkbox's label becomes the part before its countdown suffix followed by the current formatted countdown. Only the listed checkboxes are written. |
| `Provider.Table.FinalRun` | src/main/java/com/lafi/cardgame/nazdarbaby/provider/Table.java:100-110 | During a game: the game stops, every logged-in match user is flagged for a new game, and the board and then the waiting room are notified. Otherwise: unready playing users are logged out, the start-game rule is applied, and the waiting room is notified. |
| `Provider.Table.StopCurrentGame` | src/main/java/com/lafi/cardgame/nazdarbaby/provider/Table.java:112-117 | Every match user who is not logged out gets `newGame` set, no other user data changes, and the game is no longer in progress. |
| `Provider.MarkedForNewGame` | src/main/java/com/lafi/cardgame/nazdarbaby/provider/Table.java:113-115 | A user's new-game flag is set iff it was set or the user is logged in. Nothing else about the user changes. |
| `Provider.Table.StartNewGame` | src/main/java/com/lafi/cardgame/nazdarbaby/provider/Table.java:119-124 | Every playing user who is not ready is logged out. The game then starts iff the start-game rule holds for the remaining playing users, with the effects of `TryStartNewGame`. |
| `Provider.LoggedOutUnlessReady` | src/main/java/com/lafi/cardgame/nazdarbaby/provider/Table.java:120-122 | A user ends logged out iff they were logged out or not ready. Nothing else about the user changes. |
| `Provider.LogOutLeavesOnlyReady` | src/main/java/com/lafi/cardgame/nazdarbaby/provider/Table.java:119-123 | After unready players are logged out, every remaining playing user is ready. |
| `Provider.LogOutKeepsReadyCount` | src/main/java/com/lafi/cardgame/nazdarbaby/provider/Table.java:119-123 | After unready players are logged out, the number of playing users equals the number that were ready. |
| `Provider.ExpiryStartsGameIffEnoughReady` | src/main/java/com/lafi/cardgame/nazdarbaby/provider/Table.java:119-182 | When the countdown expires outside a game, a game starts iff the number of ready playing users lies between the minimum and the maximum. |
| `Provider.Table.StopNewGameCountdown` | src/main/java/com/lafi/cardgame/nazdarbaby/provider/Table.java:128-137 | Afterwards no countdown is running, because an existing executor is shut down. During a game every match user's action is reset and the board is notified. Outside a game no user changes and nothing is broadcast. |
| `Provider.Stopped` | src/main/java/com/lafi/cardgame/nazdarbaby/provider/Table.java:129-131 | Shutting down keeps "an executor exists" as it was and never leaves a running countdown. |
| `Provider.Table.IsNewGameCountdownRunning` | src/main/java/com/lafi/cardgame/nazdarbaby/provider/Table.java:139-141 | True iff an executor exists and it is not shut down. |
| `Provider.Table.IncreaseAndCheckNextButtonClickCounter` | src/main/java/com/lafi/cardgame/nazdarbaby/provider/Table.java:143-145 | The counter goes up by exactly one, with 32-bit wrap-around. The result is a quorum iff the Java remainder of the new counter by the match-user count is 0; for a non-negative counter that means divisible. There is no result when there are no match users. |
| `Provider.Increment` | src/main/java/com/lafi/cardgame/nazdarbaby/provider/Table.java:144 | `++` on an `int` is one more modulo 2^32, and exactly one more below the largest `int`. |
| `Provider.JavaRemainder` | src/main/java/com/lafi/cardgame/nazdarbaby/provider/Table.java:144 | Java's `%` takes the sign of the dividend. On a non-negative dividend it is the ordinary remainder. |
| `Provider.CounterCountsClicks` | src/main/java/com/lafi/cardgame/nazdarbaby/provider/Table.java:143-145 | Starting from 0, as a new game leaves it, the counter equals the number of clicks while that number fits in an `int`. |
| `Provider.QuorumOnEveryMultiple` | src/main/java/com/lafi/cardgame/nazdarbaby/provider/Table.java:143-145 | Within one game, for 0 < k < 2^31, the k-th click completes a quorum iff k is a multiple of the match-user count. |
| `Provider.CounterWrapsAfterMaxInt` | src/main/java/com/lafi/cardgame/nazdarbaby/provider/Table.java:144 | After 2^31 clicks without a new game, the counter wraps to the smallest `int`. |
| `Provider.Table.GetInfo` | src/main/java/com/lafi/cardgame/nazdarbaby/provider/Table.java:147-163 | During a game it reports the match-user count. Otherwise Ready is the number of ready playing users, and Ready plus Not ready is the number of playing users. |
| `Provider.CountReady` | src/main/java/com/lafi/cardgame/nazdarbaby/provider/Table.java:152-160 | The ready count is at most the number of users. It equals that number iff every user is ready. |
| `Provider.Table.IsFull` | src/main/java/com/lafi/cardgame/nazdarbaby/provider/Table.java:165-167 | True iff a game is in progress and its participants, the match users, number exactly the maximum. |
| `Provider.FullTableKeepsCheckboxesBounded` | src/main/java/com/lafi/cardgame/nazdarbaby/provider/Table.java:64-75 | On a full table, adding a checkbox succeeds whenever the maximum is positive, and a list of at most the maximum stays within it. |
| `Provider.Table.TryStartNewGame` | src/main/java/com/lafi/cardgame/nazdarbaby/provider/Table.java:169-182 | If not every playing user is ready, or their number is outside the bounds, nothing changes. Otherwise the countdown is stopped, with its effects during a game. The notification time becomes `now` minus 5 minutes in milliseconds, the click counter becomes 0, and the game is in progress. |
| `Provider.Table.ResetLastNotificationTime` | src/main/java/com/lafi/cardgame/nazdarbaby/provider/Table.java:192-197 | The last notification time becomes `now` minus 300000 ms, so at least the throttle period has passed at `now`. |

## Left out

- Threads and timing are not modelled:
  - the scheduled executors and their one-second period;
  - the `synchronized` double check in `startCountdown`;
  - iteration of the concurrent map while it is being modified.
  A tick is a sequential loop over an iteration order that visits every entry once. A race
  between registering a task and removing the last one is not modelled.
- Hooks that register new tasks during a tick (re-entrancy) are not modelled.
- `CountdownTask` is not part of this model. Only what the service reads or does is kept:
  `getListener`, `isCanceled`, `isListening`, `eachRun`, `decreaseAndGet`, `finalRun`.
  - The hooks' own effects are not modelled; each invocation is recorded in the hook log.
  - The owner's `cancel` and the listener's liveness are not modelled; they appear as task
    values written into the map.
  - The counter is an unbounded integer.
- `ExecutorServiceUtil` is not part of this model. This leaves out:
  - the clock-based countdown duration;
  - the runner that calls `everyRun` every second and `finalRun` on expiry, and any shutdown it
    does itself after `finalRun`;
  - the countdown's text format and its split pattern. `EveryRun` takes the formatted
    countdown and the split as parameters, and requires the UI's contract that splitting a label
    that already carries the suffix gives back the same prefix.
- `UiUtil.access` is not modelled: the label is written immediately.
- `Broadcaster` is reduced to the ghost log of the views notified. The table name and the payload
  are not recorded.
- `UserProvider`, `Game` and `User` are not part of this model:
  - Users are value records. The sharing of user objects between the roster and the match users
    is not captured.
  - "Playing users" is modelled as the roster members that are not logged out.
  - "Are the playing users ready" is modelled as "every playing user is ready".
  - Setting a game in progress does not fill the match users.
- The points table is not part of this model: the minimum and maximum player counts are given to
  the constructor.
- `Table.delete`, and the constructor's lookups in the user and game registries, are not
  modelled: they only delegate to collaborators outside the model.
- The plain accessors (`getTableName`, `getUserProvider`, `getGame`, `getLastNotificationTime`,
  `setLastNotificationTime`) are not modelled as methods: the model's fields are read and written
  directly.
- `getInfo` returns an `Info` value instead of its text.
- The clock is the parameter `now`, in epoch milliseconds. The `long` subtraction `now - delay`
  is unbounded.
- The Spring wiring in `AppConfig` has no behaviour to model.
- Provider.JavaRemainder: the equivalence between a zero remainder and divisibility is proved only for
  non-negative dividends. The counter is negative only after 2^31 clicks without a new game.
