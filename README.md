# Tower of Hanoi game engine, in Dafny

This project models the game engine of the `TowerOfHanoi` React component (`src/App.jsx`).
It covers:

- **the board**: three rods, with the disks listed from the bottom up, so the last element of a rod is its top disk. A new game puts the disks `n, n-1, …, 1` on rod 0.
- **the click handler**: the first click picks a non-empty rod. Clicking the picked rod again drops the pick. Clicking another rod moves the picked rod's top disk there when that rod is empty or its top disk is larger. After that click, nothing is picked. A move that fills rod 2 with all `n` disks wins: the timer stops and the congratulations screen appears.
- **the reset handler**: when it is called from the congratulations screen, it records `{ name: playerName || "Anonymous", time: elapsed }` into the leaderboard, which is sorted by ascending time. It then restores the starting state but keeps the leaderboard.
- **the start/stop handler**: starting captures the clock reading, zeroes the elapsed time, clears a stale win and turns the timer on. Stopping only turns the timer off.
- **the timer tick**: while the timer runs, it sets `elapsed` to the clock reading minus the start time.
- **the screen switches and the name field**.
- **`formatTime`**: milliseconds rendered as `m:ss`, with JavaScript's floor division, truncating `%` and `padStart(2, '0')`.

The project has five modules:

- `Wrappers` holds `Option`.
- `Board` holds the rods and the move rule.
- `Ranking` holds the leaderboard entries, the comparator and the stable sort.
- `Clock` holds `formatTime` and a reader for its output.
- `Hanoi` holds the state, one pure transition per handler (`OnRodClick`, `OnReset`, …), the lemmas about them and the class `TowerOfHanoi`.

The class has one field per state hook. Each handler is a method that updates those fields in place. Each handler method is proved to keep the invariant `Valid()` and to produce exactly the state that its pure transition gives. The helper method `MovePicked`, which performs the move of a second click, is proved to produce the state that `OnRodClick` gives. The lemmas state what each transition promises.

The clock (`Date.now()`) is a parameter `now` of `HandleStartStop` and `Tick`. The interval callback is the method `Tick`, which a caller may run at any time. The disk count `n` is the component's `initialDisks` prop, taken as fixed while the component is mounted.

The code differs from a plain reading of the component's intent in two places, and the model follows the code:

- `playerName || "Anonymous"` replaces only the empty name. A name made of spaces is kept as it is.
- No handler is guarded by the screen that is showing. The only screen test is the reset handler's decision to record a game (`currentView === 'congratulations'`), and the transitions add no other.

## Model

| member | source | states |
|---|---|---|
| Board.InitialRod | src/App.jsx:6 | the starting rod holds n disks, with size n at the bottom and size 1 on top |
| Board.InitialRodDescending | src/App.jsx:6 | the starting rod is strictly descending and every size on it lies between 1 and n |
| Board.InitialRods | src/App.jsx:76 | the starting board is well formed: three strictly descending rods holding the disks 1..n, all n on rod 0 and rods 1 and 2 empty |
| Board.InitialDisks | src/App.jsx:6 | the starting board holds each disk size 1..n exactly once and nothing else |
| Board.Disks | src/App.jsx:52-58 | specification function: the multiset of every disk on the three rods, the quantity a move must keep; it has as many disks as the three rods' lengths together |
| Board.Legal | src/App.jsx:55 | on a strictly descending destination, a move is legal exactly when the moving disk is smaller than every disk already there |
| Board.MoveTop | src/App.jsx:56-57 | the move pops the source's top disk, pushes that disk onto the destination and leaves the third rod as it was |
| Board.MoveKeepsStacking | src/App.jsx:55-57 | after a legal move on a well-formed board all three rods are strictly descending |
| Board.InitialRodCounts | src/App.jsx:6 | `[...Array(n).keys()].map(i => n - i)` holds each of 1..n once and nothing else |
| Board.Top | src/App.jsx:53-54 | the top of a rod is absent exactly when the rod is empty, and otherwise is its last element; on a strictly descending rod it is no larger than any disk on the rod, which is what makes comparing against the top enough for the legality test |
| Board.PopDescending | src/App.jsx:56 | popping the top disk keeps a rod strictly descending |
| Board.PushDescending | src/App.jsx:55-57 | pushing a disk smaller than the top, or onto an empty rod, keeps a rod strictly descending |
| Board.MovePreservesDisks | src/App.jsx:52-57 | a move neither creates nor loses a disk |
| Board.MovePreservesWellFormed | src/App.jsx:52-58 | a legal move keeps every rod strictly descending and the disks 1..n; only the source rod, which loses its top, and the destination, which gains it, change |
| Board.DisksByRods | src/App.jsx:52 | the disks of the board are those of any two rods plus the third |
| Board.SameDisksWellFormed | src/App.jsx:52-58 | three strictly descending rods holding the same disks as a well-formed board are well formed |
| Board.DiskCount | src/App.jsx:6 | the three rods hold n disks between them |
| Board.DescendingUnique | src/App.jsx:59 | two strictly descending rods with the same disks are equal |
| Board.SolvedBoard | src/App.jsx:59 | rod 2 holding n disks is the same as rods 0 and 1 being empty and rod 2 holding the starting stack |
| Board.MoveTopIs | src/App.jsx:52-57 | a move is determined by its popped source, its pushed destination and its untouched third rod |
| Ranking.NewEntry | src/App.jsx:72 | the new record's time is the elapsed time; its name is never empty, and it is the player's name whenever that is non-empty |
| Ranking.CompareTime | src/App.jsx:73 | the comparator is positive exactly when the first entry is slower, and zero exactly when the times are equal |
| Ranking.WithTime | src/App.jsx:73 | the entries of one time are at most as many as the sequence's, and every one of them is in the sequence and has that time |
| Ranking.Insert | src/App.jsx:73 | an insertion step makes the sequence one entry longer (its other properties are stated by the Insert lemmas below) |
| Ranking.SortByTime | src/App.jsx:73 | the sort keeps the length (stability, order and permutation are stated by SortByTimeIsStableSort) |
| Ranking.SortByTimeIsStableSort | src/App.jsx:73 | the sort orders by time, loses and invents no entry, and keeps entries with equal times in input order |
| Ranking.StableSortUnique | src/App.jsx:73 | two time-ordered sequences with the same entries of each time, in the same order, are equal |
| Ranking.StableSortIsSortByTime | src/App.jsx:73 | any stable sort of the entries by the comparator gives the same result as the model's sort |
| Ranking.SortSortedIsIdentity | src/App.jsx:73 | sorting an already sorted leaderboard leaves it as it is |
| Ranking.RecordPosition | src/App.jsx:73 | sorting a sorted leaderboard plus a new entry inserts that entry after every entry no slower than it and before every slower one; nothing else moves |
| Ranking.InsertPosition | src/App.jsx:73 | one insertion step into a sorted sequence puts the entry at a position k with no slower entry before it and only slower entries after it |
| Ranking.InsertMultiset | src/App.jsx:73 | an insertion step adds exactly the inserted entry |
| Ranking.InsertSorted | src/App.jsx:73 | an insertion step keeps a sequence sorted |
| Ranking.InsertWithTime | src/App.jsx:73 | an insertion step adds the entry at the end of the entries with its own time |
| Ranking.InsertAt | src/App.jsx:73 | inserting into a sequence whose entries from j on are slower than the key, and whose entry before j is not, puts the key at position j |
| Ranking.InsertInPlace | src/App.jsx:73 | the array's first i+1 slots become the first i entries with entry i inserted, and later slots do not change |
| Ranking.SortStep | src/App.jsx:73 | inserting the next entry into the sorted first i entries gives the sort of the first i+1, and the unsorted rest is untouched |
| Ranking.SortInPlace | src/App.jsx:73 | sorting in place leaves the array equal to the stable sort of its old contents |
| Ranking.SortedWith | src/App.jsx:73 | `[...leaderboard, newEntry].sort(...)` is the stable sort of the leaderboard with the entry appended |
| Clock.IntToString | src/App.jsx:101 | a non-negative integer shows as its decimal digits, a negative one as a minus sign followed by the digits of its magnitude |
| Clock.IntToStringRoundTrip | src/App.jsx:101 | every integer, negative ones included, reads back from its text through an independent signed reader |
| Clock.ParseInt | src/App.jsx:101 | the signed reader gives a negative value only for text that starts with a minus sign followed by a digit |
| Clock.NatToString | src/App.jsx:101 | a natural number's decimal digits: at least one digit, all of them digits, and exactly one digit for numbers below 10 |
| Clock.NatToStringNoLeadingZero | src/App.jsx:101 | a number of 10 or more is written without a leading zero, as `${minutes}` writes it |
| Clock.PadStart2 | src/App.jsx:101 | `padStart(2, '0')` leaves strings of length two or more alone and otherwise prefixes zeros to make exactly two characters, keeping the string at the end |
| Clock.TruncRem | src/App.jsx:100 | JavaScript's `%` is the remainder of division rounding toward zero (`a == b * TruncQuot(a, b) + r`), with the sign of the dividend and smaller in magnitude than the divisor |
| Clock.FormatTime | src/App.jsx:97-102 | the display has at least four characters; for a non-negative time it is all digits except a colon third from the end |
| Clock.ParseTime | src/App.jsx:101 | a string reads back as minutes and seconds only when it has a colon third from the end |
| Clock.ParseNatToString | src/App.jsx:101 | reading a number's decimal digits back gives the number |
| Clock.SecondsField | src/App.jsx:98-101 | for a non-negative time, the seconds field is exactly two digits, giving the whole seconds modulo 60 |
| Clock.MinutesOfMilliseconds | src/App.jsx:98-99 | the minutes of the whole seconds are the minutes of the milliseconds, and minutes times 60 plus the seconds field gives the whole seconds |
| Clock.FormatTimeShape | src/App.jsx:97-102 | a non-negative time shows as the minutes in decimal, a colon, and the seconds as two digits |
| Clock.ParseTwoDigits | src/App.jsx:101 | two digits read back as their value |
| Clock.ParseJoined | src/App.jsx:101 | `m:dd` reads back as the values of its two parts |
| Clock.ParseDisplay | src/App.jsx:101 | the display built from minutes and seconds reads back as those minutes and seconds |
| Clock.FormatTimeRoundTrip | src/App.jsx:97-102 | reading back a non-negative time's display gives its minutes and its seconds below 60, which together make its whole seconds |
| Clock.FormatTimeMinute | src/App.jsx:97-102 | 65000 ms shows as `1:05` |
| Clock.FormatTimeNegative | src/App.jsx:97-102 | -1500 ms shows as `-1:-2`: floor division first, then a truncating remainder, and no padding of a two-character string |
| Hanoi.Initial | src/App.jsx:6-14 | the mounted state satisfies the invariant, with nothing picked, the game unsolved, the timer off and an empty leaderboard |
| Hanoi.OnRodClick | src/App.jsx:42-67 | a click leaves any pick on an existing non-empty rod and never changes the timer start, the elapsed time, the leaderboard or the name |
| Hanoi.OnReset | src/App.jsx:69-84 | reset restores every initial value except the leaderboard, which gains one entry exactly when the congratulations screen was showing and stays sorted if it was sorted |
| Hanoi.OnStartStop | src/App.jsx:86-95 | the button flips the timer and leaves the board, the pick, the leaderboard, the screen and the name alone; starting restarts the clock at `now` from zero and clears a win |
| Hanoi.OnTick | src/App.jsx:30 | a tick changes only the elapsed time, and while the timer runs sets it to `now` minus the start time |
| Hanoi.OnShowLeaderboard | src/App.jsx:154 | the leaderboard screen shows and the rods, timer, elapsed time and leaderboard stay as they were |
| Hanoi.OnReturnToGame | src/App.jsx:301 | the game screen shows and the rods, timer, elapsed time and leaderboard stay as they were |
| Hanoi.OnNameInput | src/App.jsx:261 | the typed text becomes the name and the rods, timer, elapsed time and leaderboard stay as they were |
| Hanoi.InitialInv | src/App.jsx:6-14 | the mounted component satisfies the invariant, with every disk 1..n on rod 0 |
| Hanoi.ClickPreservesInv | src/App.jsx:42-67 | every click keeps the rods strictly descending with exactly the disks 1..n, keeps the picked rod non-empty, and keeps the other parts of the invariant |
| Hanoi.ClickEffect | src/App.jsx:42-67 | a click when solved or stopped, or with nothing picked on an empty rod, changes nothing; with nothing picked, a click on a non-empty rod picks it and changes nothing else; clicking the picked rod drops the pick; a click on another rod drops the pick and changes the rods exactly when the move is legal; the timer start, elapsed time, leaderboard and name never change |
| Hanoi.ClickMoveFrame | src/App.jsx:52-58 | a legal move pops the picked rod's top disk, pushes it onto the clicked rod and leaves the third rod alone |
| Hanoi.ClickWin | src/App.jsx:59-63 | a click solves the game exactly when it changes the rods and leaves all n disks on rod 2 in starting order with the other rods empty; a win stops the timer and shows the congratulations screen, and anything else leaves the timer and the screen as they were |
| Hanoi.RunClicks | src/App.jsx:42-67 | any sequence of clicks keeps the picked rod valid |
| Hanoi.RunClicksPreservesInv | src/App.jsx:42-67 | the invariant holds after any sequence of clicks |
| Hanoi.RunClicksAppend | src/App.jsx:42-67 | running two batches of clicks one after the other is the same as running them joined |
| Hanoi.ClickMove | src/App.jsx:42-67 | two clicks in a row leave any pick on an existing non-empty rod |
| Hanoi.PlayMove | src/App.jsx:44-65 | a click on a non-empty rod, then a click on a rod where the move is legal, makes that one move and wins exactly when rod 2 then holds n disks |
| Hanoi.SevenMovesOnBoard | src/App.jsx:52-57 | each of the seven moves of the three-disk solution is legal and gives the expected board |
| Hanoi.SevenMoveSolution | src/App.jsx:42-67 | with three disks and the timer running, the seven standard moves, made by clicks, solve the game, and the six before the last do not |
| Hanoi.StartedGame | src/App.jsx:86-95 | pressing Start on a new three-disk game starts the timer from zero with the starting stack on rod 0 |
| Hanoi.ResetEffect | src/App.jsx:69-84 | reset keeps the invariant and restores the starting state except for the leaderboard. From the congratulations screen, the new entry, named "Anonymous" when the name is empty, lands after every entry no slower than it and before every slower one. From any other screen, the leaderboard does not change |
| Hanoi.ResetLeaderboardGrows | src/App.jsx:71-75 | reset adds exactly the new entry when it leaves the congratulations screen, and nothing otherwise |
| Hanoi.StartStopEffect | src/App.jsx:86-95 | stop gives the old state with only the timer turned off; start gives the old state with `now` captured, the elapsed time zeroed, the win cleared and the timer on, and nothing else changed; both keep the invariant |
| Hanoi.NoResume | src/App.jsx:86-95 | stopping and then starting again restarts the clock from zero at the new reading instead of resuming |
| Hanoi.TickEffect | src/App.jsx:30 | a tick while the timer runs sets the elapsed time to the clock reading minus the start time and changes nothing else; a tick while the timer is stopped changes nothing |
| Hanoi.ScreenSwitchEffect | src/App.jsx:154 | the View Leaderboard and Return to Main buttons change only the screen, and the name field changes only the name |
| Hanoi.TowerOfHanoi.constructor | src/App.jsx:6-14 | mounting gives the initial state and the invariant |
| Hanoi.TowerOfHanoi.HandleRodClick | src/App.jsx:42-67 | the fields become `OnRodClick` of the old state, and the invariant is kept |
| Hanoi.TowerOfHanoi.MovePicked | src/App.jsx:52-65 | the second click, on a rod other than the picked one, leaves the fields equal to `OnRodClick` of the old state |
| Hanoi.TowerOfHanoi.HandleReset | src/App.jsx:69-84 | the fields become `OnReset` of the old state, with the leaderboard sorted in place, and the invariant is kept |
| Hanoi.TowerOfHanoi.HandleStartStop | src/App.jsx:86-95 | the fields become `OnStartStop` of the old state at clock reading `now`, and the invariant is kept |
| Hanoi.TowerOfHanoi.Tick | src/App.jsx:29-31 | the fields become `OnTick` of the old state at clock reading `now`, and the invariant is kept |
| Hanoi.TowerOfHanoi.ShowLeaderboard | src/App.jsx:154 | the view becomes the leaderboard screen, and nothing else changes |
| Hanoi.TowerOfHanoi.ReturnToGame | src/App.jsx:301 | the view becomes the game screen, and nothing else changes |
| Hanoi.TowerOfHanoi.SetPlayerName | src/App.jsx:261 | the name becomes the typed text, and nothing else changes |

## Left out

- Rendering, styles, hover effects, colours and `diskWidthFor`: they are presentation and change no state.
- Scheduling by `setInterval`/`clearInterval`: ticks are a method that the caller runs. `Date.now()` is a parameter `now`.
- React's batching of state updates: each handler reads the state from before its call and writes all of its updates at once. That is how the handlers in the source behave within one event.
- JavaScript number precision: times and disk sizes are unbounded integers. Overflow past 2^53 ms is not modelled.
- The JavaScript engine's sort algorithm: the model sorts by a stable insertion sort. `Ranking.StableSortIsSortByTime` shows that every stable sort by the same comparator gives the same result. `Array.prototype.sort` is stable as of ECMAScript 2019.
- The default `initialDisks = 4` of the component's props: the constructor always takes the disk count as an argument.
- A change of the `initialDisks` prop while the component is mounted: the source re-reads it on every render (`N`) and at reset, but the model fixes `n` when the component is constructed.
- A disk count below 1: `initialDisks` is a natural number, because `Array(n)` throws for a negative `n`. With 0 disks the first legal move is impossible, so the game cannot be won by clicks. No configuration error is added, since the code has none.
- Hanoi.ScreenSwitchEffect: it does not restrict the buttons to the screens that show them. They are modelled as callable in any state, because the handlers themselves do not check the screen.
- Hanoi.SevenMoveSolution: it is stated for three disks only, not for the general 2^n - 1 move solution.
