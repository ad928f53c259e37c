/**
 * The game engine of the Tower of Hanoi component: its state, one transition per
 * event handler, the invariants every transition keeps, and the component itself
 * as a class whose methods are the handlers.
 */
module Hanoi {
  import opened Wrappers
  import opened Board
  import opened Ranking

  /** The screen being shown. */
  datatype View = GameScreen | CongratulationsScreen | LeaderboardScreen

  /** Every piece of component state; `n` (the disk count) is taken as fixed at construction. */
  datatype State = State(
    rods: Rods,
    picked: Option<nat>,
    solved: bool,
    startTime: Option<int>,
    elapsed: int,
    timerOn: bool,
    leaderboard: seq<Entry>,
    view: View,
    playerName: string)

  /**
   * The state of a freshly mounted component (the state hooks' initial values): it satisfies the
   * invariant, with nothing picked, the timer off and an empty leaderboard.
   */
  function Initial(n: nat): (s: State)
    ensures Inv(s, n)
    ensures s.picked.None? && !s.solved && !s.timerOn && s.leaderboard == []
  {
    State(InitialRods(n), None, false, None, 0, false, [], GameScreen, "")
  }

  /** What the click handler needs: three rods, and a picked rod that exists and holds a disk. */
  predicate Clickable(s: State)
  {
    |s.rods| == 3 && (s.picked.Some? ==> s.picked.value < 3 && s.rods[s.picked.value] != [])
  }

  /** The invariant of every reachable state. */
  ghost predicate Inv(s: State, n: nat)
  {
    && WellFormed(s.rods, n)
    && Clickable(s)
    && (s.solved ==> |s.rods[2]| == n)
    && (s.timerOn ==> s.startTime.Some?)
    && SortedByTime(s.leaderboard)
  }

  /**
   * `handleRodClick(r)`. A click never leaves a pick on an empty rod, and never touches the
   * timer start, the elapsed time, the leaderboard or the name.
   */
  function OnRodClick(s: State, n: nat, r: nat): (s': State)
    requires Clickable(s) && r < 3
    ensures Clickable(s')
    ensures s'.startTime == s.startTime && s'.elapsed == s.elapsed
    ensures s'.leaderboard == s.leaderboard && s'.playerName == s.playerName
  {
    if s.solved || !s.timerOn then s
    else if s.picked.None? then
      if s.rods[r] == [] then s else s.(picked := Some(r))
    else if s.picked.value == r then s.(picked := None)
    else if Legal(s.rods, s.picked.value, r) then
      var rods := MoveTop(s.rods, s.picked.value, r);
      if |rods[2]| == n then
        s.(rods := rods, picked := None, solved := true, timerOn := false, view := CongratulationsScreen)
      else
        s.(rods := rods, picked := None)
    else s.(picked := None)
  }

  /**
   * `handleReset()`: record the finished game when leaving the congratulations screen, then start
   * over. Everything but the leaderboard is back to its initial value; the leaderboard gains one
   * entry exactly when the congratulations screen was showing, and stays sorted.
   */
  function OnReset(s: State, n: nat): (s': State)
    ensures s' == Initial(n).(leaderboard := s'.leaderboard)
    ensures |s'.leaderboard| == |s.leaderboard| + (if s.view == CongratulationsScreen then 1 else 0)
    ensures SortedByTime(s.leaderboard) ==> SortedByTime(s'.leaderboard)
  {
    if s.view == CongratulationsScreen then
      var all := s.leaderboard + [NewEntry(s.playerName, s.elapsed)];
      SortByTimeIsStableSort(all);
      Initial(n).(leaderboard := SortByTime(all))
    else Initial(n).(leaderboard := s.leaderboard)
  }

  /**
   * `handleStartStop()` at clock reading `now`. It flips the timer and leaves the board, the pick
   * and the leaderboard alone; starting restarts the clock at `now` from zero and clears a win.
   */
  function OnStartStop(s: State, now: int): (s': State)
    ensures s'.timerOn == !s.timerOn
    ensures s'.rods == s.rods && s'.picked == s.picked && s'.leaderboard == s.leaderboard
    ensures s'.view == s.view && s'.playerName == s.playerName
    ensures s'.timerOn ==> s'.startTime == Some(now) && s'.elapsed == 0 && !s'.solved
  {
    if s.timerOn then s.(timerOn := false)
    else s.(startTime := Some(now), elapsed := 0, timerOn := true, solved := false)
  }

  /**
   * The body of the interval callback, run only while the timer is on, at clock reading `now`:
   * only the elapsed time changes, to the time since the start.
   */
  function OnTick(s: State, now: int): (s': State)
    requires s.timerOn ==> s.startTime.Some?
    ensures s' == s.(elapsed := s'.elapsed)
    ensures s.timerOn ==> s.startTime.value + s'.elapsed == now
  {
    if s.timerOn then s.(elapsed := now - s.startTime.value) else s
  }

  /** The "View Leaderboard" button: the leaderboard screen shows and the game is left as it is. */
  function OnShowLeaderboard(s: State): (s': State)
    ensures s'.view == LeaderboardScreen
    ensures s'.rods == s.rods && s'.timerOn == s.timerOn && s'.elapsed == s.elapsed && s'.leaderboard == s.leaderboard
  {
    s.(view := LeaderboardScreen)
  }

  /** The leaderboard screen's "Return to Main" button: the game screen shows and the game is left as it is. */
  function OnReturnToGame(s: State): (s': State)
    ensures s'.view == GameScreen
    ensures s'.rods == s.rods && s'.timerOn == s.timerOn && s'.elapsed == s.elapsed && s'.leaderboard == s.leaderboard
  {
    s.(view := GameScreen)
  }

  /** The name field on the congratulations screen: the typed text becomes the name, and the game is left as it is. */
  function OnNameInput(s: State, name: string): (s': State)
    ensures s'.playerName == name
    ensures s'.rods == s.rods && s'.timerOn == s.timerOn && s'.elapsed == s.elapsed && s'.leaderboard == s.leaderboard
  {
    s.(playerName := name)
  }

  // ---------------------------------------------------------------------------
  // Properties of the transitions

  /** A new component starts with the invariant: disks n..1 on rod 0, nothing picked, timer off. */
  lemma InitialInv(n: nat)
    ensures Inv(Initial(n), n)
    ensures Initial(n).rods == [InitialRod(n), [], []]
    ensures forall k :: 1 <= k <= n ==> k in Initial(n).rods[0]
  {
    InitialDisks(n);
    InitialRodCounts(n);
    forall k | 1 <= k <= n ensures k in InitialRod(n) {
      assert multiset(InitialRod(n))[k] == 1;
    }
  }

  /** Every click keeps the invariant: rods strictly descending, disks exactly 1..n, picked rod non-empty. */
  lemma ClickPreservesInv(s: State, n: nat, r: nat)
    requires Inv(s, n) && r < 3
    ensures Inv(OnRodClick(s, n, r), n)
  {
    if !s.solved && s.timerOn && s.picked.Some? && s.picked.value != r && Legal(s.rods, s.picked.value, r) {
      MovePreservesWellFormed(s.rods, n, s.picked.value, r);
    }
  }

  /**
   * What a click may change. While solved or stopped, or on an empty rod with nothing picked,
   * nothing changes; the timer start, the leaderboard and the name never change; the rods change
   * only by a legal move of the picked rod's top disk onto the clicked rod, and any click on a
   * rod other than the picked one drops the pick.
   */
  lemma ClickEffect(s: State, n: nat, r: nat)
    requires Inv(s, n) && r < 3
    ensures var s' := OnRodClick(s, n, r);
      && (s.solved || !s.timerOn || (s.picked.None? && s.rods[r] == []) ==> s' == s)
      && s'.startTime == s.startTime && s'.elapsed == s.elapsed
      && s'.leaderboard == s.leaderboard && s'.playerName == s.playerName
      && (s.picked.None? ==> s'.rods == s.rods)
      && (!s.solved && s.timerOn && s.picked.None? && s.rods[r] != [] ==> s' == s.(picked := Some(r)))
      && (s.picked == Some(r) ==> s' == s.(picked := if s.solved || !s.timerOn then s.picked else None))
      && (!s.solved && s.timerOn && s.picked.Some? && s.picked.value != r ==>
            && s'.picked.None?
            && (s'.rods == s.rods <==> !Legal(s.rods, s.picked.value, r)))
  {
    if !s.solved && s.timerOn && s.picked.Some? && s.picked.value != r && Legal(s.rods, s.picked.value, r) {
      MovePreservesWellFormed(s.rods, n, s.picked.value, r);
      assert |OnRodClick(s, n, r).rods[r]| == |s.rods[r]| + 1;
    }
  }

  /**
   * A legal move pops the picked rod, pushes its disk onto the clicked rod, and
   * leaves the third rod as it was.
   */
  lemma ClickMoveFrame(s: State, n: nat, r: nat)
    requires Inv(s, n) && r < 3
    requires !s.solved && s.timerOn && s.picked.Some? && s.picked.value != r
    requires Legal(s.rods, s.picked.value, r)
    ensures var from, s' := s.picked.value, OnRodClick(s, n, r);
      && s.rods[from] == s'.rods[from] + [s.rods[from][|s.rods[from]| - 1]]
      && s'.rods[r] == s.rods[r] + [s.rods[from][|s.rods[from]| - 1]]
      && (forall k :: 0 <= k < 3 && k != from && k != r ==> s'.rods[k] == s.rods[k])
  {
    MovePreservesWellFormed(s.rods, n, s.picked.value, r);
  }

  /**
   * A click wins the game exactly when it leaves every disk on the target rod, stacked as
   * they started; a winning click stops the timer and shows the congratulations screen.
   */
  lemma ClickWin(s: State, n: nat, r: nat)
    requires Inv(s, n) && r < 3 && !s.solved
    ensures var s' := OnRodClick(s, n, r);
      && (s'.solved <==> s'.rods[0] == [] && s'.rods[1] == [] && s'.rods[2] == InitialRod(n) && s'.rods != s.rods)
      && (s'.solved ==> !s'.timerOn && s'.view == CongratulationsScreen)
      && (!s'.solved ==> s'.timerOn == s.timerOn && s'.view == s.view)
  {
    var s' := OnRodClick(s, n, r);
    ClickPreservesInv(s, n, r);
    SolvedBoard(s'.rods, n);
    SolvedBoard(s.rods, n);
  }

  /**
   * Reset keeps the invariant and starts a fresh game; leaving the congratulations screen
   * records the player's time (as "Anonymous" without a name) in its sorted place after
   * every entry no slower than it, and from any other screen the leaderboard is untouched.
   */
  lemma ResetEffect(s: State, n: nat)
    requires Inv(s, n)
    ensures var s' := OnReset(s, n);
      && Inv(s', n)
      && s' == Initial(n).(leaderboard := s'.leaderboard)
      && (s.view != CongratulationsScreen ==> s'.leaderboard == s.leaderboard)
      && (s.view == CongratulationsScreen ==>
            var e := Entry(if s.playerName == [] then "Anonymous" else s.playerName, s.elapsed);
            exists k :: (0 <= k <= |s.leaderboard|
              && s'.leaderboard == s.leaderboard[..k] + [e] + s.leaderboard[k..]
              && (forall i :: 0 <= i < k ==> s.leaderboard[i].time <= e.time)
              && (forall i :: k <= i < |s.leaderboard| ==> s.leaderboard[i].time > e.time)))
  {
    InitialInv(n);
    if s.view == CongratulationsScreen {
      var all := s.leaderboard + [NewEntry(s.playerName, s.elapsed)];
      SortByTimeIsStableSort(all);
      RecordPosition(s.leaderboard, NewEntry(s.playerName, s.elapsed));
    }
  }

  /** The leaderboard only ever grows, by one entry per reset from the congratulations screen. */
  lemma ResetLeaderboardGrows(s: State, n: nat)
    requires Inv(s, n)
    ensures var lb := OnReset(s, n).leaderboard;
      && multiset(lb) == multiset(s.leaderboard) + (if s.view == CongratulationsScreen then multiset{NewEntry(s.playerName, s.elapsed)} else multiset{})
      && |lb| == |s.leaderboard| + (if s.view == CongratulationsScreen then 1 else 0)
  {
    if s.view == CongratulationsScreen {
      var all := s.leaderboard + [NewEntry(s.playerName, s.elapsed)];
      SortByTimeIsStableSort(all);
      assert |multiset(SortByTime(all))| == |multiset(all)|;
    }
  }

  /**
   * Start zeroes the elapsed time, captures `now`, turns the timer on and clears a stale win;
   * stop only turns the timer off. Neither touches anything else (the rods, the pick, the
   * leaderboard, the screen or the name), and both keep the invariant.
   */
  lemma StartStopEffect(s: State, n: nat, now: int)
    requires Inv(s, n)
    ensures var s' := OnStartStop(s, now);
      && Inv(s', n)
      && (s.timerOn ==> s' == s.(timerOn := false))
      && (!s.timerOn ==> s' == s.(startTime := Some(now), elapsed := 0, timerOn := true, solved := false))
  {
  }

  /** Stopping and starting again restarts the clock from zero rather than resuming it. */
  lemma NoResume(s: State, n: nat, stopAt: int, restartAt: int)
    requires Inv(s, n) && s.timerOn
    ensures var s' := OnStartStop(OnStartStop(s, stopAt), restartAt);
      s'.timerOn && s'.elapsed == 0 && s'.startTime == Some(restartAt)
  {
  }

  /** A tick while the timer runs sets the elapsed time to the time since start and changes nothing else. */
  lemma TickEffect(s: State, n: nat, now: int)
    requires Inv(s, n)
    ensures var s' := OnTick(s, now);
      && Inv(s', n)
      && s' == s.(elapsed := s'.elapsed)
      && (s.timerOn ==> s'.elapsed + s.startTime.value == now)
      && (!s.timerOn ==> s' == s)
  {
  }

  /** The screen switches and the name field change nothing but the view or the name. */
  lemma ScreenSwitchEffect(s: State, n: nat, name: string)
    requires Inv(s, n)
    ensures Inv(OnShowLeaderboard(s), n) && OnShowLeaderboard(s) == s.(view := LeaderboardScreen)
    ensures Inv(OnReturnToGame(s), n) && OnReturnToGame(s) == s.(view := GameScreen)
    ensures Inv(OnNameInput(s, name), n) && OnNameInput(s, name) == s.(playerName := name)
  {
  }

  /** A sequence of rod clicks, one after another. */
  function RunClicks(s: State, n: nat, clicks: seq<nat>): (s': State)
    requires Clickable(s) && forall i :: 0 <= i < |clicks| ==> clicks[i] < 3
    ensures Clickable(s')
    decreases |clicks|
  {
    if clicks == [] then s
    else
      RunClicks(OnRodClick(s, n, clicks[0]), n, clicks[1..])
  }

  /** However many clicks come, the invariant holds after them. */
  lemma {:induction false} RunClicksPreservesInv(s: State, n: nat, clicks: seq<nat>)
    requires Inv(s, n) && forall i :: 0 <= i < |clicks| ==> clicks[i] < 3
    ensures Inv(RunClicks(s, n, clicks), n)
    decreases |clicks|
  {
    if clicks != [] {
      ClickPreservesInv(s, n, clicks[0]);
      RunClicksPreservesInv(OnRodClick(s, n, clicks[0]), n, clicks[1..]);
    }
  }

  /** Clicks in two batches are the clicks in one. */
  lemma {:induction false} RunClicksAppend(s: State, n: nat, xs: seq<nat>, ys: seq<nat>)
    requires Clickable(s)
    requires forall i :: 0 <= i < |xs| ==> xs[i] < 3
    requires forall i :: 0 <= i < |ys| ==> ys[i] < 3
    ensures forall i :: 0 <= i < |xs + ys| ==> (xs + ys)[i] < 3
    ensures Clickable(RunClicks(s, n, xs))
    ensures RunClicks(s, n, xs + ys) == RunClicks(RunClicks(s, n, xs), n, ys)
    decreases |xs|
  {
    if xs == [] {
      assert xs + ys == ys;
    } else {
      var s1 := OnRodClick(s, n, xs[0]);
      assert (xs + ys)[0] == xs[0];
      assert (xs + ys)[1..] == xs[1..] + ys;
      assert RunClicks(s, n, xs + ys) == RunClicks(s1, n, xs[1..] + ys);
      assert RunClicks(s, n, xs) == RunClicks(s1, n, xs[1..]);
      RunClicksAppend(s1, n, xs[1..], ys);
    }
  }

  /** A move as the player makes it: a click on the source rod, then a click on the destination. */
  function ClickMove(s: State, n: nat, from: nat, to: nat): (s': State)
    requires Clickable(s) && from < 3 && to < 3
    ensures Clickable(s')
  {
    var a := OnRodClick(s, n, from);
    OnRodClick(a, n, to)
  }

  /** Two clicks, on a non-empty rod and then on another rod, make one move when it is legal. */
  lemma PlayMove(s: State, n: nat, from: nat, to: nat)
    requires Clickable(s) && from < 3 && to < 3 && from != to
    requires !s.solved && s.timerOn && s.picked.None? && s.rods[from] != []
    requires Legal(s.rods, from, to)
    ensures var after := MoveTop(s.rods, from, to);
      ClickMove(s, n, from, to) ==
        if |after[2]| == n then s.(rods := after, solved := true, timerOn := false, view := CongratulationsScreen)
        else s.(rods := after)
  {
    assert OnRodClick(s, n, from) == s.(picked := Some(from));
  }

  /** The seven moves of the three-disk solution, each legal, on the board alone. */
  lemma SevenMovesOnBoard()
    ensures Legal([[3, 2, 1], [], []], 0, 2) && MoveTop([[3, 2, 1], [], []], 0, 2) == [[3, 2], [], [1]]
    ensures Legal([[3, 2], [], [1]], 0, 1) && MoveTop([[3, 2], [], [1]], 0, 1) == [[3], [2], [1]]
    ensures Legal([[3], [2], [1]], 2, 1) && MoveTop([[3], [2], [1]], 2, 1) == [[3], [2, 1], []]
    ensures Legal([[3], [2, 1], []], 0, 2) && MoveTop([[3], [2, 1], []], 0, 2) == [[], [2, 1], [3]]
    ensures Legal([[], [2, 1], [3]], 1, 0) && MoveTop([[], [2, 1], [3]], 1, 0) == [[1], [2], [3]]
    ensures Legal([[1], [2], [3]], 1, 2) && MoveTop([[1], [2], [3]], 1, 2) == [[1], [], [3, 2]]
    ensures Legal([[1], [], [3, 2]], 0, 2) && MoveTop([[1], [], [3, 2]], 0, 2) == [[], [], [3, 2, 1]]
  {
    assert [3, 2, 1][..2] == [3, 2];
    assert [3, 2][..1] == [3];
    assert [2, 1][..1] == [2];
    MoveTopIs([[3, 2, 1], [], []], 0, 2, [[3, 2], [], [1]]);
    MoveTopIs([[3, 2], [], [1]], 0, 1, [[3], [2], [1]]);
    MoveTopIs([[3], [2], [1]], 2, 1, [[3], [2, 1], []]);
    MoveTopIs([[3], [2, 1], []], 0, 2, [[], [2, 1], [3]]);
    MoveTopIs([[], [2, 1], [3]], 1, 0, [[1], [2], [3]]);
    MoveTopIs([[1], [2], [3]], 1, 2, [[1], [], [3, 2]]);
    MoveTopIs([[1], [], [3, 2]], 0, 2, [[], [], [3, 2, 1]]);
  }

  /**
   * With three disks, once the timer runs the seven moves 0->2, 0->1, 2->1, 0->2,
   * 1->0, 1->2, 0->2 (two clicks each) solve the puzzle, and only the last move does.
   */
  lemma SevenMoveSolution(s: State)
    requires !s.solved && s.timerOn && s.picked.None? && s.rods == [[3, 2, 1], [], []]
    ensures var s1 := ClickMove(s, 3, 0, 2);
      var s2 := ClickMove(s1, 3, 0, 1);
      var s3 := ClickMove(s2, 3, 2, 1);
      var s4 := ClickMove(s3, 3, 0, 2);
      var s5 := ClickMove(s4, 3, 1, 0);
      var s6 := ClickMove(s5, 3, 1, 2);
      && s6 == s.(rods := [[1], [], [3, 2]])
      && ClickMove(s6, 3, 0, 2) ==
           s.(rods := [[], [], [3, 2, 1]], solved := true, timerOn := false, view := CongratulationsScreen)
  {
    SevenMovesOnBoard();
    PlayMove(s, 3, 0, 2);
    var s1 := s.(rods := [[3, 2], [], [1]]);
    PlayMove(s1, 3, 0, 1);
    var s2 := s.(rods := [[3], [2], [1]]);
    PlayMove(s2, 3, 2, 1);
    var s3 := s.(rods := [[3], [2, 1], []]);
    PlayMove(s3, 3, 0, 2);
    var s4 := s.(rods := [[], [2, 1], [3]]);
    PlayMove(s4, 3, 1, 0);
    var s5 := s.(rods := [[1], [2], [3]]);
    PlayMove(s5, 3, 1, 2);
    var s6 := s.(rods := [[1], [], [3, 2]]);
    PlayMove(s6, 3, 0, 2);
  }

  /** Starting the timer on a new three-disk game gives the start state of the solution above. */
  lemma StartedGame(now: int)
    ensures var s := OnStartStop(Initial(3), now);
      !s.solved && s.timerOn && s.picked.None? && s.rods == [[3, 2, 1], [], []] && s.elapsed == 0
  {
    assert InitialRod(3) == [3, 2, 1];
  }

  // ---------------------------------------------------------------------------
  // The component

  class TowerOfHanoi {
    const n: nat
    var rods: Rods
    var picked: Option<nat>
    var solved: bool
    var startTime: Option<int>
    var elapsed: int
    var timerOn: bool
    var leaderboard: seq<Entry>
    var view: View
    var playerName: string

    function Snapshot(): State
      reads this
    {
      State(rods, picked, solved, startTime, elapsed, timerOn, leaderboard, view, playerName)
    }

    ghost predicate Valid()
      reads this
    {
      Inv(Snapshot(), n)
    }

    /** Mounting the component with `initialDisks` disks. */
    constructor (initialDisks: nat)
      ensures Valid() && n == initialDisks
      ensures Snapshot() == Initial(initialDisks)
    {
      n := initialDisks;
      rods := [InitialRod(initialDisks), [], []];
      picked := None;
      solved := false;
      startTime := None;
      elapsed := 0;
      timerOn := false;
      leaderboard := [];
      view := GameScreen;
      playerName := "";
      InitialInv(initialDisks);
    }

    method HandleRodClick(rIdx: nat)
      requires Valid() && rIdx < 3
      modifies this
      ensures Valid()
      ensures Snapshot() == OnRodClick(old(Snapshot()), n, rIdx)
    {
      ClickPreservesInv(Snapshot(), n, rIdx);
      if solved || !timerOn {
        return;
      }
      if picked.None? {
        if |rods[rIdx]| == 0 {
          return;
        }
        picked := Some(rIdx);
      } else {
        if picked.value == rIdx {
          picked := None;
          return;
        }
        MovePicked(rIdx);
      }
    }

    /** The second click, on a rod other than the picked one: move when legal, then drop the pick. */
    method MovePicked(rIdx: nat)
      requires Clickable(Snapshot()) && rIdx < 3
      requires !solved && timerOn && picked.Some? && picked.value != rIdx
      modifies this
      ensures Snapshot() == OnRodClick(old(Snapshot()), n, rIdx)
    {
      ghost var s := Snapshot();
      var from := picked.value;
      var newRods := rods;
      var disk := newRods[from][|newRods[from]| - 1];
      var dest := Top(newRods[rIdx]);
      assert Legal(s.rods, from, rIdx) <==> dest.None? || disk < dest.value;
      if dest.None? || disk < dest.value {
        newRods := newRods[from := newRods[from][..|newRods[from]| - 1]];
        newRods := newRods[rIdx := newRods[rIdx] + [disk]];
        MoveTopIs(s.rods, from, rIdx, newRods);
        rods := newRods;
        if |newRods[2]| == n {
          solved := true;
          timerOn := false;
          view := CongratulationsScreen;
        }
      }
      picked := None;
    }

    method HandleReset()
      requires Valid()
      modifies this
      ensures Valid()
      ensures Snapshot() == OnReset(old(Snapshot()), n)
    {
      ResetEffect(Snapshot(), n);
      if view == CongratulationsScreen {
        var newEntry := NewEntry(playerName, elapsed);
        leaderboard := SortedWith(leaderboard, newEntry);
      }
      rods := [InitialRod(n), [], []];
      picked := None;
      solved := false;
      elapsed := 0;
      timerOn := false;
      startTime := None;
      view := GameScreen;
      playerName := "";
    }

    method HandleStartStop(now: int)
      requires Valid()
      modifies this
      ensures Valid()
      ensures Snapshot() == OnStartStop(old(Snapshot()), now)
    {
      if timerOn {
        timerOn := false;
      } else {
        startTime := Some(now);
        elapsed := 0;
        timerOn := true;
        solved := false;
      }
    }

    method Tick(now: int)
      requires Valid()
      modifies this
      ensures Valid()
      ensures Snapshot() == OnTick(old(Snapshot()), now)
    {
      if timerOn {
        elapsed := now - startTime.value;
      }
    }

    method ShowLeaderboard()
      requires Valid()
      modifies this
      ensures Valid()
      ensures Snapshot() == OnShowLeaderboard(old(Snapshot()))
    {
      view := LeaderboardScreen;
    }

    method ReturnToGame()
      requires Valid()
      modifies this
      ensures Valid()
      ensures Snapshot() == OnReturnToGame(old(Snapshot()))
    {
      view := GameScreen;
    }

    method SetPlayerName(name: string)
      requires Valid()
      modifies this
      ensures Valid()
      ensures Snapshot() == OnNameInput(old(Snapshot()), name)
    {
      playerName := name;
    }
  }
}
