/**
 * The per-table lifecycle: the "new game" countdown of one table, the checkboxes that display
 * it, the click quorum for the "next" button, the start-game rule and the notification throttle.
 *
 * The table's collaborators are reduced to plain data held in the table: the roster of the
 * user provider (`users`), the game's in-progress flag and match users, and a checkbox as an
 * object with a mutable label. Broadcasts are appended to a ghost log.
 */
module Provider {
  import opened Wrappers

  /** The notification throttle, in minutes and in milliseconds. */
  const NOTIFICATION_DELAY_IN_MINUTES: int := 5
  const NOTIFICATION_DELAY_MILLIS: int := NOTIFICATION_DELAY_IN_MINUTES * 60 * 1000

  /** Java's `int`. */
  newtype Int32 = x: int | -0x8000_0000 <= x < 0x8000_0000

  /** Java's `++` on an `int`: one more, modulo 2^32, wrapping from the largest value to the smallest. */
  function Increment(x: Int32): (r: Int32)
    ensures (r as int - x as int - 1) % 0x1_0000_0000 == 0
    ensures x < 0x7fff_ffff ==> r as int == x as int + 1
  {
    if x == 0x7fff_ffff then -0x8000_0000 else x + 1
  }

  /**
   * Java's `%` on `int` for a positive divisor: truncates toward zero, so the result takes the
   * sign of the dividend and agrees with the Euclidean remainder on non-negative dividends.
   */
  function JavaRemainder(a: int, n: int): (r: int)
    requires n > 0
    ensures a >= 0 ==> 0 <= r < n && r == a % n
    ensures a < 0 ==> -n < r <= 0
  {
    if a >= 0 then a % n else -((-a) % n)
  }

  // ---------------------------------------------------------------------------------------
  // Users

  /** What the table reads from and writes to a user. */
  datatype User = User(ready: bool, loggedOut: bool, newGame: bool, hasAction: bool)

  /** The views a table broadcasts to. */
  datatype View = BoardView | TableView

  /** The handle of the "new game" countdown's executor, if one was ever created. */
  datatype CountdownHandle = NoHandle | Handle(isShutdown: bool)

  /** `getInfo` without its text formatting. */
  datatype Info = InProgress(playing: nat) | NotStarted(ready: nat, notReady: nat)

  /** `update` applied to every user, in order. */
  function MapUsers(users: seq<User>, update: User -> User): (r: seq<User>)
    ensures |r| == |users|
    ensures forall i :: 0 <= i < |users| ==> r[i] == update(users[i])
  {
    if users == [] then [] else MapUsers(users[..|users| - 1], update) + [update(users[|users| - 1])]
  }

  /** A match user still logged in is flagged for the new game; nothing else about a user changes. */
  function MarkedForNewGame(u: User): (r: User)
    ensures r.newGame == (u.newGame || !u.loggedOut)
    ensures r == u.(newGame := r.newGame)
  {
    if u.loggedOut then u else u.(newGame := true)
  }

  /** A playing user who is not ready is logged out; nothing else about a user changes. */
  function LoggedOutUnlessReady(u: User): (r: User)
    ensures r.loggedOut == (u.loggedOut || !u.ready)
    ensures r == u.(loggedOut := r.loggedOut)
  {
    if !u.loggedOut && !u.ready then u.(loggedOut := true) else u
  }

  /** `resetAction`: the user's pending action is cleared. */
  function WithActionReset(u: User): User
  {
    u.(hasAction := false)
  }

  /** The playing users: the roster members that have not logged out, in roster order. */
  function PlayingUsers(users: seq<User>): (r: seq<User>)
    ensures |r| <= |users|
    ensures forall u :: u in r <==> u in users && !u.loggedOut
  {
    if users == [] then []
    else
      var last := users[|users| - 1];
      assert users == users[..|users| - 1] + [last];
      PlayingUsers(users[..|users| - 1]) + (if last.loggedOut then [] else [last])
  }

  /** `arePlayingUsersReady` on the given users. */
  predicate AllReady(users: seq<User>)
  {
    forall u :: u in users ==> u.ready
  }

  /** The number of ready users among `users`. */
  function CountReady(users: seq<User>): (r: nat)
    ensures r <= |users|
    ensures r == |users| <==> AllReady(users)
  {
    if users == [] then 0
    else
      var last := users[|users| - 1];
      assert users == users[..|users| - 1] + [last];
      CountReady(users[..|users| - 1]) + (if last.ready then 1 else 0)
  }

  /** The start-game guard: every playing user is ready and their number is within the bounds. */
  predicate CanStartNewGame(playing: seq<User>, minimumUsers: nat, maximumUsers: nat)
  {
    AllReady(playing) && minimumUsers <= |playing| <= maximumUsers
  }

  lemma MapUsersSnoc(users: seq<User>, last: User, update: User -> User)
    ensures MapUsers(users + [last], update) == MapUsers(users, update) + [update(last)]
  {
    assert (users + [last])[..|users|] == users;
  }

  lemma PlayingUsersSnoc(users: seq<User>, last: User)
    ensures PlayingUsers(users + [last]) == PlayingUsers(users) + (if last.loggedOut then [] else [last])
  {
    assert (users + [last])[..|users|] == users;
  }

  lemma CountReadySnoc(users: seq<User>, last: User)
    ensures CountReady(users + [last]) == CountReady(users) + (if last.ready then 1 else 0)
  {
    assert (users + [last])[..|users|] == users;
  }

  /** After the playing users who are not ready are logged out, every playing user is ready. */
  lemma LogOutLeavesOnlyReady(users: seq<User>)
    ensures AllReady(PlayingUsers(MapUsers(users, LoggedOutUnlessReady)))
  {
    var mapped := MapUsers(users, LoggedOutUnlessReady);
    forall u | u in PlayingUsers(mapped) ensures u.ready {
      var i :| 0 <= i < |mapped| && mapped[i] == u;
      assert u == LoggedOutUnlessReady(users[i]);
    }
  }

  /** Logging out the playing users who are not ready leaves as many playing as were ready. */
  lemma {:induction false} LogOutKeepsReadyCount(users: seq<User>)
    ensures |PlayingUsers(MapUsers(users, LoggedOutUnlessReady))| == CountReady(PlayingUsers(users))
  {
    if users != [] {
      var prefix, last := users[..|users| - 1], users[|users| - 1];
      assert users == prefix + [last];
      LogOutKeepsReadyCount(prefix);
      var mappedPrefix, updated := MapUsers(prefix, LoggedOutUnlessReady), LoggedOutUnlessReady(last);
      MapUsersSnoc(prefix, last, LoggedOutUnlessReady);
      assert MapUsers(users, LoggedOutUnlessReady) == mappedPrefix + [updated];
      PlayingUsersSnoc(mappedPrefix, updated);
      assert |PlayingUsers(mappedPrefix + [updated])| == |PlayingUsers(mappedPrefix)| + (if updated.loggedOut then 0 else 1);
      var playingPrefix := PlayingUsers(prefix);
      PlayingUsersSnoc(prefix, last);
      if last.loggedOut {
        assert PlayingUsers(users) == playingPrefix;
      } else {
        assert PlayingUsers(users) == playingPrefix + [last];
        CountReadySnoc(playingPrefix, last);
      }
    }
  }

  /**
   * When the countdown expires outside a game, a game starts exactly when the number of ready
   * playing users is within the bounds: the users who are not ready are logged out first.
   */
  lemma ExpiryStartsGameIffEnoughReady(users: seq<User>, minimumUsers: nat, maximumUsers: nat)
    ensures CanStartNewGame(PlayingUsers(MapUsers(users, LoggedOutUnlessReady)), minimumUsers, maximumUsers)
            <==> minimumUsers <= CountReady(PlayingUsers(users)) <= maximumUsers
  {
    LogOutLeavesOnlyReady(users);
    LogOutKeepsReadyCount(users);
  }

  // ---------------------------------------------------------------------------------------
  // Click quorum

  /** The click counter after `clicks` increments from zero, as a new game leaves it. */
  function CounterAfter(clicks: nat): Int32
  {
    if clicks == 0 then 0 else Increment(CounterAfter(clicks - 1))
  }

  lemma {:induction false} CounterCountsClicks(clicks: nat)
    requires clicks < 0x8000_0000
    ensures CounterAfter(clicks) as int == clicks
  {
    if clicks > 0 {
      CounterCountsClicks(clicks - 1);
    }
  }

  /**
   * Within one game, the `clicks`-th click on "next" completes a quorum exactly when `clicks`
   * is a multiple of the number of match users.
   */
  lemma QuorumOnEveryMultiple(clicks: nat, matchUsers: nat)
    requires 0 < clicks < 0x8000_0000 && matchUsers > 0
    ensures JavaRemainder(CounterAfter(clicks) as int, matchUsers) == 0 <==> clicks % matchUsers == 0
  {
    CounterCountsClicks(clicks);
  }

  /** After 2^31 clicks without a new game the counter wraps to the smallest `int`. */
  lemma CounterWrapsAfterMaxInt()
    ensures CounterAfter(0x8000_0000) == -0x8000_0000
  {
    CounterCountsClicks(0x7fff_ffff);
  }

  // ---------------------------------------------------------------------------------------
  // Countdown checkboxes

  /** A UI checkbox; the table only rewrites its label text. */
  class Checkbox {
    var text: string

    constructor (text: string)
      ensures this.text == text
    {
      this.text := text;
    }
  }

  /**
   * The checkbox list after `c` is added while `participants` users take part: when the list
   * already holds one checkbox per participant its oldest one is evicted first. None when that
   * eviction is attempted on an empty list (the list's `remove(0)` throws).
   */
  function WithCheckbox(list: seq<Checkbox>, participants: nat, c: Checkbox): (r: Option<seq<Checkbox>>)
    ensures r.None? <==> list == [] && participants == 0
    ensures r.Some? ==> |r.value| == if |list| == participants then participants else |list| + 1
    ensures r.Some? ==> r.value[|r.value| - 1] == c
  {
    if |list| == participants then
      if list == [] then None else Some(list[1..] + [c])
    else Some(list + [c])
  }

  /** Eviction is first in, first out: what remains before the new checkbox is the newest part of the old list. */
  lemma CheckboxEvictionIsFifo(list: seq<Checkbox>, participants: nat, c: Checkbox)
    requires WithCheckbox(list, participants, c).Some?
    ensures var added := WithCheckbox(list, participants, c).value;
            added == list[|list| + 1 - |added|..] + [c]
  {
  }

  /** While the participants do not shrink, the list never holds more checkboxes than participants. */
  lemma CheckboxesStayBounded(list: seq<Checkbox>, participants: nat, c: Checkbox)
    requires |list| <= participants
    ensures WithCheckbox(list, participants, c).Some? ==> |WithCheckbox(list, participants, c).value| <= participants
    ensures participants > 0 ==> WithCheckbox(list, participants, c).Some?
  {
  }

  /** Adding five checkboxes with three participants keeps the three newest, oldest first. */
  lemma FifoEvictionKeepsNewest(c1: Checkbox, c2: Checkbox, c3: Checkbox, c4: Checkbox, c5: Checkbox)
    ensures var l1 := WithCheckbox([], 3, c1).value;
            var l2 := WithCheckbox(l1, 3, c2).value;
            var l3 := WithCheckbox(l2, 3, c3).value;
            var l4 := WithCheckbox(l3, 3, c4).value;
            WithCheckbox(l4, 3, c5) == Some([c3, c4, c5])
  {
    var l1 := WithCheckbox([], 3, c1).value;
    assert l1 == [c1];
    var l2 := WithCheckbox(l1, 3, c2).value;
    assert l2 == [c1, c2];
    var l3 := WithCheckbox(l2, 3, c3).value;
    assert l3 == [c1, c2, c3];
    var l4 := WithCheckbox(l3, 3, c4).value;
    assert l3[1..] == [c2, c3];
    assert l4 == [c2, c3, c4];
    assert l4[1..] + [c5] == [c3, c4, c5];
    assert WithCheckbox(l4, 3, c5) == Some([c3, c4, c5]);
  }

  /** Keeps what precedes the countdown suffix of a label; `formatted` is the suffix appended to it. */
  predicate StripsSuffix(prefixOf: string -> string, text: string, formatted: string)
  {
    prefixOf(prefixOf(text) + formatted) == prefixOf(text)
  }

  // ---------------------------------------------------------------------------------------
  // The table

  class Table {
    const tableName: string
    /** The smallest and largest supported numbers of players. */
    const minimumUsers: nat
    const maximumUsers: nat

    /** The roster the user provider holds for this table. */
    var users: seq<User>
    /** The game's in-progress flag and its match users. */
    var gameInProgress: bool
    var matchUsers: seq<User>

    var countdownCheckboxes: seq<Checkbox>
    var newGameCountdown: CountdownHandle
    /** Epoch milliseconds. */
    var lastNotificationTime: int
    var nextButtonClickCounter: Int32

    /** How many "new game" countdowns have been scheduled so far. */
    ghost var countdownsStarted: nat
    /** Every broadcast published for this table, in order. */
    ghost var broadcasts: seq<View>

    constructor (tableName: string, users: seq<User>, minimumUsers: nat, maximumUsers: nat, now: int)
      requires minimumUsers <= maximumUsers
      ensures this.tableName == tableName && this.users == users
      ensures this.minimumUsers == minimumUsers && this.maximumUsers == maximumUsers
      ensures !gameInProgress && matchUsers == [] && countdownCheckboxes == []
      ensures newGameCountdown == NoHandle && nextButtonClickCounter == 0
      ensures lastNotificationTime == now - NOTIFICATION_DELAY_MILLIS
      ensures countdownsStarted == 0 && broadcasts == []
    {
      this.tableName := tableName;
      this.users := users;
      this.minimumUsers := minimumUsers;
      this.maximumUsers := maximumUsers;
      gameInProgress := false;
      matchUsers := [];
      countdownCheckboxes := [];
      newGameCountdown := NoHandle;
      nextButtonClickCounter := 0;
      countdownsStarted := 0;
      broadcasts := [];
      new;
      ResetLastNotificationTime(now);
    }

    /** The playing users of the roster. */
    function Playing(): seq<User>
      reads this`users
    {
      PlayingUsers(users)
    }

    /** The current participants: the match users during a game, the playing users otherwise. */
    function Participants(): nat
      reads this`gameInProgress, this`matchUsers, this`users
    {
      if gameInProgress then |matchUsers| else |Playing()|
    }

    predicate IsNewGameCountdownRunning()
      reads this`newGameCountdown
      ensures IsNewGameCountdownRunning() <==> newGameCountdown == Handle(false)
    {
      newGameCountdown.Handle? && !newGameCountdown.isShutdown
    }

    /** The game in progress has as many participants as the table supports. */
    predicate IsFull()
      reads this`gameInProgress, this`matchUsers, this`users
      ensures IsFull() <==> gameInProgress && Participants() == maximumUsers
    {
      gameInProgress && |matchUsers| == maximumUsers
    }

    /**
     * Adds a checkbox that displays the countdown, evicting the oldest one when the list
     * already has one per participant; ignored when no countdown is running.
     */
    method AddCountdownCheckbox(countdownCheckbox: Checkbox) returns (outOfBounds: bool)
      modifies this`countdownCheckboxes
      ensures !old(IsNewGameCountdownRunning()) ==> !outOfBounds && countdownCheckboxes == old(countdownCheckboxes)
      ensures old(IsNewGameCountdownRunning()) ==>
                var added := WithCheckbox(old(countdownCheckboxes), Participants(), countdownCheckbox);
                && outOfBounds == added.None?
                && countdownCheckboxes == if added.None? then old(countdownCheckboxes) else added.value
    {
      outOfBounds := false;
      if !IsNewGameCountdownRunning() {
        return;
      }

      var participants := if gameInProgress then |matchUsers| else |Playing()|;
      if |countdownCheckboxes| == participants {
        if countdownCheckboxes == [] {
          outOfBounds := true;
          return;
        }
        countdownCheckboxes := countdownCheckboxes[1..];
      }

      countdownCheckboxes := countdownCheckboxes + [countdownCheckbox];
    }

    /** Starts the "new game" countdown unless one is running, with an empty checkbox list. */
    method StartNewGameCountdown()
      modifies this`countdownCheckboxes, this`newGameCountdown, this`countdownsStarted
      ensures IsNewGameCountdownRunning()
      ensures old(IsNewGameCountdownRunning()) ==>
                && countdownCheckboxes == old(countdownCheckboxes)
                && newGameCountdown == old(newGameCountdown)
                && countdownsStarted == old(countdownsStarted)
      ensures !old(IsNewGameCountdownRunning()) ==>
                countdownCheckboxes == [] && countdownsStarted == old(countdownsStarted) + 1
    {
      if IsNewGameCountdownRunning() {
        return;
      }

      countdownCheckboxes := [];
      newGameCountdown := Handle(false);
      countdownsStarted := countdownsStarted + 1;
    }

    /**
     * The countdown's per-second hook: every listed checkbox's label becomes what precedes its
     * countdown suffix followed by the current `formatted` countdown. The split is the UI's
     * contract: stripping a label that already carries the suffix gives back its prefix.
     */
    method EveryRun(formatted: string, prefixOf: string -> string)
      requires forall text :: StripsSuffix(prefixOf, text, formatted)
      modifies countdownCheckboxes
      ensures forall c :: c in countdownCheckboxes ==> c.text == prefixOf(old(c.text)) + formatted
    {
      var i := 0;
      while i < |countdownCheckboxes|
        invariant 0 <= i <= |countdownCheckboxes|
        invariant forall c :: c in countdownCheckboxes[..i] ==> c.text == prefixOf(old(c.text)) + formatted
        invariant forall c :: c in countdownCheckboxes[i..] && c !in countdownCheckboxes[..i] ==> c.text == old(c.text)
      {
        var countdownCheckbox := countdownCheckboxes[i];
        var originalLabel := prefixOf(countdownCheckbox.text);
        assert StripsSuffix(prefixOf, old(countdownCheckbox.text), formatted);
        countdownCheckbox.text := originalLabel + formatted;
        assert countdownCheckboxes[..i + 1] == countdownCheckboxes[..i] + [countdownCheckbox];
        i := i + 1;
      }
      assert countdownCheckboxes[..i] == countdownCheckboxes;
    }

    /**
     * The countdown's expiry hook: during a game the game is stopped (every match user still
     * logged in is flagged for a new game); otherwise the playing users who are not ready are
     * logged out and a new game is tried. The waiting room is told in either case.
     */
    method FinalRun(now: int)
      modifies this`users, this`matchUsers, this`gameInProgress, this`newGameCountdown,
               this`lastNotificationTime, this`nextButtonClickCounter, this`broadcasts
      ensures old(gameInProgress) ==>
                && matchUsers == MapUsers(old(matchUsers), MarkedForNewGame)
                && !gameInProgress
                && users == old(users)
                && newGameCountdown == old(newGameCountdown)
                && lastNotificationTime == old(lastNotificationTime)
                && nextButtonClickCounter == old(nextButtonClickCounter)
                && broadcasts == old(broadcasts) + [BoardView, TableView]
      ensures !old(gameInProgress) ==>
                && users == MapUsers(old(users), LoggedOutUnlessReady)
                && matchUsers == old(matchUsers)
                && broadcasts == old(broadcasts) + [TableView]
                && (if CanStartNewGame(Playing(), minimumUsers, maximumUsers) then
                      && gameInProgress
                      && newGameCountdown == Stopped(old(newGameCountdown))
                      && lastNotificationTime == now - NOTIFICATION_DELAY_MILLIS
                      && nextButtonClickCounter == 0
                    else
                      && !gameInProgress
                      && newGameCountdown == old(newGameCountdown)
                      && lastNotificationTime == old(lastNotificationTime)
                      && nextButtonClickCounter == old(nextButtonClickCounter))
    {
      if gameInProgress {
        StopCurrentGame();
        broadcasts := broadcasts + [BoardView];
      } else {
        StartNewGame(now);
      }

      broadcasts := broadcasts + [TableView];
    }

    /** Every match user still logged in is flagged for a new game, and the game stops. */
    method StopCurrentGame()
      modifies this`matchUsers, this`gameInProgress
      ensures matchUsers == MapUsers(old(matchUsers), MarkedForNewGame)
      ensures !gameInProgress
    {
      var i := 0;
      while i < |matchUsers|
        invariant 0 <= i <= |matchUsers| == |old(matchUsers)|
        modifies this`matchUsers
        invariant forall j :: 0 <= j < i ==> matchUsers[j] == MarkedForNewGame(old(matchUsers)[j])
        invariant forall j :: i <= j < |matchUsers| ==> matchUsers[j] == old(matchUsers)[j]
      {
        if !matchUsers[i].loggedOut {
          matchUsers := matchUsers[i := matchUsers[i].(newGame := true)];
        }
        i := i + 1;
      }
      gameInProgress := false;
    }

    /** Every playing user who is not ready is logged out, then a new game is tried. */
    method StartNewGame(now: int)
      requires !gameInProgress
      modifies this`users, this`matchUsers, this`gameInProgress, this`newGameCountdown,
               this`lastNotificationTime, this`nextButtonClickCounter, this`broadcasts
      ensures users == MapUsers(old(users), LoggedOutUnlessReady)
      ensures matchUsers == old(matchUsers) && broadcasts == old(broadcasts)
      ensures if CanStartNewGame(Playing(), minimumUsers, maximumUsers) then
                && gameInProgress
                && newGameCountdown == Stopped(old(newGameCountdown))
                && lastNotificationTime == now - NOTIFICATION_DELAY_MILLIS
                && nextButtonClickCounter == 0
              else
                && !gameInProgress
                && newGameCountdown == old(newGameCountdown)
                && lastNotificationTime == old(lastNotificationTime)
                && nextButtonClickCounter == old(nextButtonClickCounter)
    {
      var i := 0;
      while i < |users|
        invariant 0 <= i <= |users| == |old(users)|
        modifies this`users
        invariant forall j :: 0 <= j < i ==> users[j] == LoggedOutUnlessReady(old(users)[j])
        invariant forall j :: i <= j < |users| ==> users[j] == old(users)[j]
      {
        if !users[i].loggedOut && !users[i].ready {
          users := users[i := users[i].(loggedOut := true)];
        }
        i := i + 1;
      }
      TryStartNewGame(now);
    }

    /**
     * Stops the countdown; during a game every match user's action is reset and the board is told.
     */
    method StopNewGameCountdown()
      modifies this`newGameCountdown, this`matchUsers, this`broadcasts
      ensures !IsNewGameCountdownRunning()
      ensures newGameCountdown == Stopped(old(newGameCountdown))
      ensures matchUsers == if gameInProgress then MapUsers(old(matchUsers), WithActionReset) else old(matchUsers)
      ensures broadcasts == old(broadcasts) + if gameInProgress then [BoardView] else []
    {
      if newGameCountdown.Handle? {
        newGameCountdown := Handle(true);
      }

      if gameInProgress {
        var i := 0;
        while i < |matchUsers|
          invariant 0 <= i <= |matchUsers| == |old(matchUsers)|
          modifies this`matchUsers
          invariant forall j :: 0 <= j < i ==> matchUsers[j] == WithActionReset(old(matchUsers)[j])
          invariant forall j :: i <= j < |matchUsers| ==> matchUsers[j] == old(matchUsers)[j]
        {
          matchUsers := matchUsers[i := matchUsers[i].(hasAction := false)];
          i := i + 1;
        }
        broadcasts := broadcasts + [BoardView];
      }
    }

    /**
     * Counts a click on "next" and reports whether the clicks now form a quorum: a multiple of
     * the number of match users. None when there are no match users (the division throws,
     * after the counter was incremented).
     */
    method IncreaseAndCheckNextButtonClickCounter() returns (quorum: Option<bool>)
      modifies this`nextButtonClickCounter
      ensures nextButtonClickCounter == Increment(old(nextButtonClickCounter))
      ensures quorum.None? <==> matchUsers == []
      ensures quorum.Some? ==> (quorum.value <==> JavaRemainder(nextButtonClickCounter as int, |matchUsers|) == 0)
      ensures quorum.Some? && nextButtonClickCounter >= 0 ==> (quorum.value <==> nextButtonClickCounter as int % |matchUsers| == 0)
    {
      nextButtonClickCounter := Increment(nextButtonClickCounter);
      if |matchUsers| == 0 {
        return None;
      }
      quorum := Some(JavaRemainder(nextButtonClickCounter as int, |matchUsers|) == 0);
    }

    /** The table's status: the match size during a game, otherwise the ready and not-ready counts. */
    method GetInfo() returns (info: Info)
      ensures gameInProgress ==> info == InProgress(|matchUsers|)
      ensures !gameInProgress ==> info.NotStarted?
      ensures !gameInProgress ==> info.ready == CountReady(Playing()) && info.ready + info.notReady == |Playing()|
    {
      if gameInProgress {
        return InProgress(|matchUsers|);
      }

      var readyCounter, notReadyCounter := 0, 0;
      var playingUsers := Playing();
      for i := 0 to |playingUsers|
        invariant readyCounter == CountReady(playingUsers[..i])
        invariant readyCounter + notReadyCounter == i
      {
        assert playingUsers[..i + 1][..i] == playingUsers[..i];
        if playingUsers[i].ready {
          readyCounter := readyCounter + 1;
        } else {
          notReadyCounter := notReadyCounter + 1;
        }
      }
      assert playingUsers[..|playingUsers|] == playingUsers;
      return NotStarted(readyCounter, notReadyCounter);
    }

    /**
     * Starts a game when every playing user is ready and their number is within the bounds:
     * the countdown stops, the notification throttle and the click counter are reset, and the
     * game is in progress. Otherwise nothing changes.
     */
    method TryStartNewGame(now: int)
      modifies this`newGameCountdown, this`matchUsers, this`broadcasts, this`lastNotificationTime,
               this`nextButtonClickCounter, this`gameInProgress
      ensures !CanStartNewGame(Playing(), minimumUsers, maximumUsers) ==> unchanged(this)
      ensures CanStartNewGame(Playing(), minimumUsers, maximumUsers) ==>
                && gameInProgress
                && !IsNewGameCountdownRunning()
                && newGameCountdown == Stopped(old(newGameCountdown))
                && matchUsers == (if old(gameInProgress) then MapUsers(old(matchUsers), WithActionReset) else old(matchUsers))
                && broadcasts == old(broadcasts) + (if old(gameInProgress) then [BoardView] else [])
                && lastNotificationTime == now - NOTIFICATION_DELAY_MILLIS
                && nextButtonClickCounter == 0
    {
      if AllReady(Playing()) {
        var playingUsers := Playing();
        var numberOfPlayingUsers := |playingUsers|;

        if numberOfPlayingUsers >= minimumUsers && numberOfPlayingUsers <= maximumUsers {
          StopNewGameCountdown();
          ResetLastNotificationTime(now);

          nextButtonClickCounter := 0;
          gameInProgress := true;
        }
      }
    }

    /** Sets the last notification one throttle period before `now`, so a notification may go out at once. */
    method ResetLastNotificationTime(now: int)
      modifies this`lastNotificationTime
      ensures lastNotificationTime == now - NOTIFICATION_DELAY_MILLIS
      ensures now - lastNotificationTime >= NOTIFICATION_DELAY_MILLIS
    {
      var delay := NOTIFICATION_DELAY_IN_MINUTES * 60 * 1000;
      lastNotificationTime := now - delay;
    }
  }

  /**
   * On a full table a checkbox addition succeeds whenever the table supports any player, and a
   * list within the maximum stays within it.
   */
  lemma FullTableKeepsCheckboxesBounded(t: Table, c: Checkbox)
    requires t.IsFull() && |t.countdownCheckboxes| <= t.maximumUsers
    ensures t.maximumUsers > 0 ==> WithCheckbox(t.countdownCheckboxes, t.Participants(), c).Some?
    ensures WithCheckbox(t.countdownCheckboxes, t.Participants(), c).Some? ==>
              |WithCheckbox(t.countdownCheckboxes, t.Participants(), c).value| <= t.maximumUsers
  {
    CheckboxesStayBounded(t.countdownCheckboxes, t.Participants(), c);
  }

  /** `shutdown` on the countdown's executor, if there is one. */
  function Stopped(handle: CountdownHandle): (r: CountdownHandle)
    ensures r.Handle? <==> handle.Handle?
    ensures r != Handle(false)
  {
    if handle.Handle? then Handle(true) else handle
  }

  /** Starting the countdown twice schedules it once; stopping it outside a game tells nobody. */
  method StartTwiceThenStop(now: int)
  {
    var table := new Table("T", [], 2, 6, now);
    table.StartNewGameCountdown();
    table.StartNewGameCountdown();
    assert table.countdownsStarted == 1;

    table.StopNewGameCountdown();
    assert !table.IsNewGameCountdownRunning();
    assert table.broadcasts == [];
  }
}
