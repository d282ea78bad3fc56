/** The watcher and the auto-join thread of a terminal node, interleaved step by step
    over their locks and condition variables, with the thread that sets the auto-join flag. */
module AutoJoin {
  import opened Options

  const CONNECTED := 1

  datatype Thread = Watcher | Joiner | Setter
  datatype Lock = Global | Net | Flag      // global_node_info.mutex, auto_join_net_mutex, auto_join_net_flag_mutex

  /** Where the watcher is: asleep between polls, between lines, past storing a line's link
      state, about to lock, about to signal, about to unlock. */
  datatype WatcherAt = Asleep | NextLine | Stored | WantsNet | Signals | Unlocks

  /** Where the joiner is. In `TestsFlag` it holds the flag lock, in `TestsLink`, `AboutToWait`,
      `Decides`, `Joins` and `Releases` the net lock; in the two waits and wakes it holds none.
      Between the test of the link and the wait the watcher may store another link state; the
      flag is only ever set under its lock. */
  datatype JoinerAt = WantsFlag | TestsFlag | WaitsFlag | WokenFlag
                    | WantsLink | TestsLink | AboutToWait | WaitsLink | WokenLink | Decides | Joins | Releases

  datatype SetterAt = Away | Sets | SignalsFlag | Leaves

  /** A join attempt: which slot was used, and after how many wake-ups. */
  datatype Attempt = Attempt(slot: nat, wake: nat)

  datatype State = State(
    global: Option<Thread>, net: Option<Thread>, flag: Option<Thread>,   // who holds each lock
    link: int, enabled: bool,
    watcher: WatcherAt, lines: seq<Option<int>>,
    joiner: JoinerAt, index: nat,
    setter: SetterAt,
    wakes: nat, attempts: seq<Attempt>)

  /** The next step of a thread. A poll begins with the lines of its answer: the link state
      of a role line, or none. `Clear` switches auto-join off without a lock; `Spurious`
      ends a wait that nobody signalled. */
  datatype Move = Watch(lines: seq<Option<int>>) | Join | Set(on: bool) | Clear | Spurious

  function Initial(link: int, on: bool): State {
    State(None, None, None, link, on, Asleep, [], WantsFlag, 0, Away, 0, [])
  }

  function Owner(s: State, l: Lock): Option<Thread> {
    match l
    case Global => s.global
    case Net => s.net
    case Flag => s.flag
  }

  predicate Free(s: State, l: Lock) {
    Owner(s, l).None?
  }

  /** Whether a move is possible: only a lock that is taken can hold a thread up, and a wait. */
  predicate Enabled(s: State, m: Move) {
    match m
    case Watch(_) => (s.watcher == Asleep ==> Free(s, Global)) && (s.watcher == WantsNet ==> Free(s, Net))
    case Join =>
      && s.joiner != WaitsFlag && s.joiner != WaitsLink
      && (s.joiner in {WantsFlag, WokenFlag} ==> Free(s, Flag))
      && (s.joiner in {WantsLink, WokenLink} ==> Free(s, Net))
    case Set(_) => s.setter == Away ==> Free(s, Flag)
    case Clear => true
    case Spurious => s.joiner in {WaitsFlag, WaitsLink}
  }

  function WatcherStep(s: State, lines: seq<Option<int>>): State {
    match s.watcher
    case Asleep => s.(global := Some(Watcher), watcher := NextLine, lines := lines)
    case NextLine =>
      if s.lines == [] then s.(global := None, watcher := Asleep)
      else s.(link := if s.lines[0].Some? then s.lines[0].value else s.link, lines := s.lines[1..], watcher := Stored)
    case Stored => s.(watcher := if s.link != CONNECTED then WantsNet else NextLine)
    case WantsNet => s.(net := Some(Watcher), watcher := Signals)
    case Signals => s.(watcher := Unlocks, joiner := if s.joiner == WaitsLink then WokenLink else s.joiner)
    case Unlocks => s.(net := None, watcher := NextLine)
  }

  function JoinerStep(s: State): State
    requires s.joiner != WaitsFlag && s.joiner != WaitsLink
  {
    match s.joiner
    case WantsFlag => s.(flag := Some(Joiner), joiner := TestsFlag)
    case TestsFlag => s.(flag := None, joiner := if s.enabled then WantsLink else WaitsFlag)
    case WokenFlag => s.(flag := Some(Joiner), joiner := TestsFlag)
    case WantsLink => s.(net := Some(Joiner), joiner := TestsLink)
    case TestsLink => s.(joiner := if s.link == CONNECTED then AboutToWait else Decides)
    case AboutToWait => s.(net := None, joiner := WaitsLink)
    case WokenLink => s.(net := Some(Joiner), joiner := TestsLink, index := 0, wakes := s.wakes + 1)
    case Decides => if s.enabled then s.(joiner := Joins) else s.(net := None, joiner := WantsFlag)
    case Joins =>
      s.(joiner := Releases, index := if s.index == 2 then 0 else s.index + 1,
         attempts := s.attempts + [Attempt(s.index, s.wakes)])
    case Releases => s.(net := None, joiner := WantsFlag)
  }

  function SetterStep(s: State, on: bool): State {
    match s.setter
    case Away => s.(flag := Some(Setter), setter := Sets)
    case Sets => s.(enabled := on, setter := SignalsFlag)
    case SignalsFlag => s.(setter := Leaves, joiner := if s.joiner == WaitsFlag then WokenFlag else s.joiner)
    case Leaves => s.(flag := None, setter := Away)
  }

  function Next(s: State, m: Move): State
    requires Enabled(s, m)
  {
    match m
    case Watch(lines) => WatcherStep(s, lines)
    case Join => JoinerStep(s)
    case Set(on) => SetterStep(s, on)
    case Clear => s.(enabled := false)
    case Spurious => s.(joiner := if s.joiner == WaitsFlag then WokenFlag else WokenLink)
  }

  // ---- what every step keeps ----

  predicate JoinerHoldsNet(at: JoinerAt) {
    at in {TestsLink, AboutToWait, Decides, Joins, Releases}
  }

  /** Who holds which lock follows from where the threads are. */
  ghost predicate LocksRight(s: State) {
    && s.global == (if s.watcher != Asleep then Some(Watcher) else None)
    && s.net == (if s.watcher in {Signals, Unlocks} then Some(Watcher)
                 else if JoinerHoldsNet(s.joiner) then Some(Joiner) else None)
    && s.flag == (if s.joiner == TestsFlag then Some(Joiner) else if s.setter != Away then Some(Setter) else None)
    && !(s.watcher in {Signals, Unlocks} && JoinerHoldsNet(s.joiner))
    && !(s.joiner == TestsFlag && s.setter != Away)
  }

  /** No wake-up gets lost: while the joiner waits, or is about to, with the link down, the
      watcher is on its way to signal it, for the very line that took the link down. */
  ghost predicate NoLostWakeUp(s: State) {
    s.joiner in {AboutToWait, WaitsLink} && s.link != CONNECTED ==> s.watcher in {Stored, WantsNet, Signals}
  }

  /** Past its test of a line the watcher acts on a link that is down. */
  ghost predicate SignalsWhenDown(s: State) {
    s.watcher in {WantsNet, Signals, Unlocks} ==> s.link != CONNECTED
  }

  function After(slot: nat): nat {
    if slot == 2 then 0 else slot + 1
  }

  /** An attempt uses slot 0 if it is the first after a wake-up, and otherwise the slot after
      that of the attempt before. */
  ghost predicate InTurn(a: seq<Attempt>, i: nat)
    requires i < |a|
  {
    a[i].slot < 3 && a[i].slot == if i > 0 && a[i - 1].wake == a[i].wake then After(a[i - 1].slot) else 0
  }

  ghost predicate SlotsInTurn(s: State) {
    && (forall i :: 0 <= i < |s.attempts| ==> InTurn(s.attempts, i) && s.attempts[i].wake <= s.wakes)
    && s.index == (if s.attempts != [] && s.attempts[|s.attempts| - 1].wake == s.wakes
                   then After(s.attempts[|s.attempts| - 1].slot) else 0)
  }

  ghost predicate Inv(s: State) {
    LocksRight(s) && NoLostWakeUp(s) && SignalsWhenDown(s) && SlotsInTurn(s)
  }

  lemma {:induction false} InvInitial(link: int, on: bool)
    ensures Inv(Initial(link, on))
  {
  }

  lemma {:induction false} WatcherLocks(s: State, lines: seq<Option<int>>)
    requires LocksRight(s) && Enabled(s, Watch(lines))
    ensures LocksRight(WatcherStep(s, lines))
  {
  }

  lemma {:induction false} JoinerLocks(s: State)
    requires LocksRight(s) && Enabled(s, Join)
    ensures LocksRight(JoinerStep(s))
  {
  }

  lemma {:induction false} SetterLocks(s: State, on: bool)
    requires LocksRight(s) && Enabled(s, Set(on))
    ensures LocksRight(SetterStep(s, on))
  {
  }

  lemma {:induction false} LocksStep(s: State, m: Move)
    requires LocksRight(s) && Enabled(s, m)
    ensures LocksRight(Next(s, m))
  {
    match m
    case Watch(lines) => WatcherLocks(s, lines);
    case Join => JoinerLocks(s);
    case Set(on) => SetterLocks(s, on);
    case Clear =>
    case Spurious =>
  }

  lemma {:induction false} WakeUpStep(s: State, m: Move)
    requires LocksRight(s) && NoLostWakeUp(s) && SignalsWhenDown(s) && Enabled(s, m)
    ensures NoLostWakeUp(Next(s, m)) && SignalsWhenDown(Next(s, m))
  {
  }

  /** What the slots in turn depend on. */
  function Turn(s: State): (seq<Attempt>, nat, nat) {
    (s.attempts, s.index, s.wakes)
  }

  lemma {:induction false} TurnStep(s: State, m: Move)
    requires Enabled(s, m)
    ensures Turn(Next(s, m)) ==
      if m == Join && s.joiner == Joins then
        (s.attempts + [Attempt(s.index, s.wakes)], if s.index == 2 then 0 else s.index + 1, s.wakes)
      else if m == Join && s.joiner == WokenLink then (s.attempts, 0, s.wakes + 1)
      else Turn(s)
  {
  }

  lemma {:induction false} SlotsAttempt(s: State)
    requires SlotsInTurn(s) && s.joiner == Joins
    ensures SlotsInTurn(JoinerStep(s))
  {
    var a, n := s.attempts, |s.attempts|;
    var b := a + [Attempt(s.index, s.wakes)];
    assert n > 0 ==> InTurn(a, n - 1);
    assert InTurn(b, n);
    forall i | 0 <= i < n ensures InTurn(b, i) {
      assert InTurn(a, i);
    }
  }

  lemma {:induction false} SlotsStep(s: State, m: Move)
    requires SlotsInTurn(s) && Enabled(s, m)
    ensures SlotsInTurn(Next(s, m))
  {
    TurnStep(s, m);
    if m == Join && s.joiner == Joins {
      SlotsAttempt(s);
    }
  }

  lemma {:induction false} InvStep(s: State, m: Move)
    requires Inv(s) && Enabled(s, m)
    ensures Inv(Next(s, m))
  {
    hide LocksRight, NoLostWakeUp, SignalsWhenDown, SlotsInTurn, Next, Enabled;
    LocksStep(s, m);
    WakeUpStep(s, m);
    SlotsStep(s, m);
  }

  /** A run: each state follows from the one before by some move that is possible there. */
  ghost predicate IsRun(states: seq<State>, moves: seq<Move>) {
    && |states| == |moves| + 1
    && (exists link, on :: states[0] == Initial(link, on))
    && forall i :: 0 <= i < |moves| ==> Enabled(states[i], moves[i]) && states[i + 1] == Next(states[i], moves[i])
  }

  lemma {:induction false} InvAlways(states: seq<State>, moves: seq<Move>, n: nat)
    requires IsRun(states, moves) && n < |states|
    ensures Inv(states[n])
  {
    if n == 0 {
      var link, on :| states[0] == Initial(link, on);
      InvInitial(link, on);
    } else {
      InvAlways(states, moves, n - 1);
      InvStep(states[n - 1], moves[n - 1]);
    }
  }

  // ---- what follows for every interleaving ----

  /** Whenever no poll is under way, a joiner that waits for the link to go down waits with
      the link up: every poll that took it down has signalled. */
  lemma {:induction false} NoWaitWhileDown(states: seq<State>, moves: seq<Move>, n: nat)
    requires IsRun(states, moves) && n < |states|
    requires states[n].watcher in {Asleep, NextLine} && states[n].joiner in {AboutToWait, WaitsLink}
    ensures states[n].link == CONNECTED
  {
    InvAlways(states, moves, n);
  }

  /** A thread that does not wait can go on when no other holds a lock. */
  lemma {:induction false} FreeToGo(s: State, lines: seq<Option<int>>, on: bool)
    requires s.global == s.net == s.flag == None
    ensures Enabled(s, Watch(lines)) && Enabled(s, Set(on)) && Enabled(s, Clear)
    ensures Enabled(s, Join) <==> s.joiner != WaitsFlag && s.joiner != WaitsLink
  {
  }

  predicate CanStep(s: State, t: Thread) {
    match t
    case Watcher => Enabled(s, Watch([]))
    case Joiner => Enabled(s, Join)
    case Setter => Enabled(s, Set(true))
  }

  /** No deadlock on these locks: whoever holds one can go on, or is the watcher, held up by
      a joiner that can go on; so the watcher itself never waits for good. */
  lemma {:induction false} NoDeadlock(states: seq<State>, moves: seq<Move>, n: nat, l: Lock)
    requires IsRun(states, moves) && n < |states| && Owner(states[n], l).Some?
    ensures var s, t := states[n], Owner(states[n], l).value;
      CanStep(s, t) || (t == Watcher && s.watcher == WantsNet && s.net == Some(Joiner) && CanStep(s, Joiner))
    ensures CanStep(states[n], Watcher) || CanStep(states[n], Joiner)
  {
    InvAlways(states, moves, n);
  }

  /** The joiner waits although the link is down. */
  predicate WaitsWhileDown(s: State) {
    s.joiner == WaitsLink && s.link != CONNECTED
  }

  /** How many steps the watcher is from having signalled. */
  function ToSignal(s: State): nat {
    match s.watcher
    case Stored => 3
    case WantsNet => 2
    case Signals => 1
    case _ => 0
  }

  /** While the joiner waits with the link down the watcher can always go on, each of its steps
      brings it closer to the signal or gives it, and no step of another thread takes it back. */
  lemma {:induction false} CloserToSignal(s: State, m: Move)
    requires Inv(s) && Enabled(s, m) && WaitsWhileDown(s)
    ensures ToSignal(s) > 0 && forall lines :: Enabled(s, Watch(lines))
    ensures var t := Next(s, m);
      t.joiner == WokenLink || (WaitsWhileDown(t) && ToSignal(t) == ToSignal(s) - if m.Watch? then 1 else 0)
  {
  }

  lemma {:induction false} SignalAhead(s: State)
    requires Inv(s) && WaitsWhileDown(s)
    ensures 0 < ToSignal(s) <= 3
  {
  }

  /** How many of the moves from `n` up to `j` are the watcher's. */
  function WatcherMoves(moves: seq<Move>, n: nat, j: nat): nat
    requires n <= j <= |moves|
    decreases j - n
  {
    if n == j then 0 else (if moves[n].Watch? then 1 else 0) + WatcherMoves(moves, n + 1, j)
  }

  /** A joiner that waits while the link is down is woken, in every interleaving, by the time
      the watcher has made three more steps. */
  lemma {:induction false} WokenSoon(states: seq<State>, moves: seq<Move>, n: nat, j: nat)
    requires IsRun(states, moves) && n <= j <= |moves| && WaitsWhileDown(states[n])
    requires WatcherMoves(moves, n, j) >= ToSignal(states[n])
    ensures ToSignal(states[n]) <= 3
    ensures exists k :: n < k <= j && states[k].joiner == WokenLink
    decreases j - n
  {
    hide Next, Enabled, Inv;
    InvAlways(states, moves, n);
    SignalAhead(states[n]);
    CloserToSignal(states[n], moves[n]);
    if states[n + 1].joiner != WokenLink {
      WokenSoon(states, moves, n + 1, j);
    }
  }

  /** The first attempt after a wake-up uses slot 0. */
  lemma {:induction false} FirstAfterWake(states: seq<State>, moves: seq<Move>, n: nat, i: nat)
    requires IsRun(states, moves) && n < |states| && i < |states[n].attempts|
    requires i == 0 || states[n].attempts[i - 1].wake != states[n].attempts[i].wake
    ensures states[n].attempts[i].slot == 0
  {
    InvAlways(states, moves, n);
    assert InTurn(states[n].attempts, i);
  }

  /** Three attempts in a row without a wake-up between them try all three slots. */
  lemma {:induction false} ThreeCoverAll(states: seq<State>, moves: seq<Move>, n: nat, i: nat)
    requires IsRun(states, moves) && n < |states| && i + 2 < |states[n].attempts|
    requires states[n].attempts[i].wake == states[n].attempts[i + 1].wake == states[n].attempts[i + 2].wake
    ensures var a := states[n].attempts; {a[i].slot, a[i + 1].slot, a[i + 2].slot} == {0, 1, 2}
  {
    InvAlways(states, moves, n);
    var a := states[n].attempts;
    assert InTurn(a, i) && InTurn(a, i + 1) && InTurn(a, i + 2);
    assert a[i].slot in {0, 1, 2};
  }

  // ---- what the joiner waits for, and when it tries to join ----

  /** At this move the joiner tests the link and finds it down. */
  ghost predicate SeesLinkDown(states: seq<State>, moves: seq<Move>, k: nat)
    requires k < |states| && k < |moves|
  {
    moves[k] == Join && states[k].joiner == TestsLink && states[k].link != CONNECTED
  }

  /** A joiner that decides or joins has seen the link down in the same hold of the net lock. */
  lemma {:induction false} LinkWasDown(states: seq<State>, moves: seq<Move>, n: nat)
    requires IsRun(states, moves) && n < |states| && states[n].joiner in {Decides, Joins}
    ensures exists k: nat :: k < n && SeesLinkDown(states, moves, k) && forall i :: k < i <= n ==> states[i].joiner in {Decides, Joins}
  {
    var m := n - 1;
    assert n > 0 && states[n] == Next(states[m], moves[m]);
    if states[m].joiner in {Decides, Joins} {
      LinkWasDown(states, moves, m);
      var k: nat :| k < m && SeesLinkDown(states, moves, k) && forall i :: k < i <= m ==> states[i].joiner in {Decides, Joins};
      assert k < n && SeesLinkDown(states, moves, k) && forall i :: k < i <= n ==> states[i].joiner in {Decides, Joins};
    } else {
      assert SeesLinkDown(states, moves, m);
    }
  }

  /** At this move the joiner decides to join, auto-join being on. */
  ghost predicate DecidesOn(states: seq<State>, moves: seq<Move>, k: nat)
    requires k < |states| && k < |moves|
  {
    moves[k] == Join && states[k].joiner == Decides && states[k].enabled
  }

  lemma {:induction false} DecidedWithFlagOn(states: seq<State>, moves: seq<Move>, n: nat)
    requires IsRun(states, moves) && n < |states| && states[n].joiner == Joins
    ensures exists k: nat :: k < n && DecidesOn(states, moves, k) && forall i :: k < i <= n ==> states[i].joiner == Joins
  {
    var m := n - 1;
    assert n > 0 && states[n] == Next(states[m], moves[m]);
    if states[m].joiner == Joins {
      DecidedWithFlagOn(states, moves, m);
      var k: nat :| k < m && DecidesOn(states, moves, k) && forall i :: k < i <= m ==> states[i].joiner == Joins;
      assert k < n && DecidesOn(states, moves, k) && forall i :: k < i <= n ==> states[i].joiner == Joins;
    } else {
      assert DecidesOn(states, moves, m);
    }
  }

  /** At this move an attempt is made, with the slot that is due. */
  ghost predicate Attempts(states: seq<State>, moves: seq<Move>, k: nat, a: Attempt)
    requires k < |states| && k < |moves|
  {
    moves[k] == Join && states[k].joiner == Joins && a == Attempt(states[k].index, states[k].wakes)
  }

  /** Attempt number `i` was made at some move, when there were `i` attempts. */
  lemma {:induction false} AttemptWasMade(states: seq<State>, moves: seq<Move>, n: nat, i: nat)
    requires IsRun(states, moves) && n < |states| && i < |states[n].attempts|
    ensures exists k: nat :: k < n && |states[k].attempts| == i && Attempts(states, moves, k, states[n].attempts[i])
  {
    var m := n - 1;
    assert n > 0 && states[n] == Next(states[m], moves[m]);
    if i < |states[m].attempts| {
      AttemptWasMade(states, moves, m, i);
    } else {
      assert Attempts(states, moves, m, states[n].attempts[i]);
    }
  }

  /** Every attempt is made with auto-join found on, after the link was found down, without the
      net lock having been released since. */
  lemma {:induction false} AttemptsAreDue(states: seq<State>, moves: seq<Move>, n: nat, i: nat)
      returns (tests: nat, decides: nat, joins: nat)
    requires IsRun(states, moves) && n < |states| && i < |states[n].attempts|
    ensures tests < decides < joins < n && |states[joins].attempts| == i
    ensures SeesLinkDown(states, moves, tests) && DecidesOn(states, moves, decides)
    ensures Attempts(states, moves, joins, states[n].attempts[i])
    ensures forall k :: tests < k <= joins ==> states[k].net == Some(Joiner)
  {
    hide Next, Enabled;
    AttemptWasMade(states, moves, n, i);
    joins :| joins < n && |states[joins].attempts| == i && Attempts(states, moves, joins, states[n].attempts[i]);
    DecidedWithFlagOn(states, moves, joins);
    decides :| decides < joins && DecidesOn(states, moves, decides) && forall k :: decides < k <= joins ==> states[k].joiner == Joins;
    LinkWasDown(states, moves, decides);
    tests :| tests < decides && SeesLinkDown(states, moves, tests)
      && forall k :: tests < k <= decides ==> states[k].joiner in {Decides, Joins};
    forall k | tests < k <= joins ensures states[k].net == Some(Joiner) {
      InvAlways(states, moves, k);
    }
  }

  /** The joiner is past the test of the auto-join flag. */
  predicate PastFlag(at: JoinerAt) {
    at !in {WantsFlag, TestsFlag, WaitsFlag, WokenFlag}
  }

  /** At this move the joiner tests the flag and finds it on. */
  ghost predicate SeesFlagOn(states: seq<State>, moves: seq<Move>, k: nat)
    requires k < |states| && k < |moves|
  {
    moves[k] == Join && states[k].joiner == TestsFlag && states[k].enabled
  }

  /** The joiner gets past the flag only by finding it on. */
  lemma {:induction false} FlagWasOn(states: seq<State>, moves: seq<Move>, n: nat)
    requires IsRun(states, moves) && n < |states| && PastFlag(states[n].joiner)
    ensures exists k: nat :: k < n && SeesFlagOn(states, moves, k) && forall i :: k < i <= n ==> PastFlag(states[i].joiner)
  {
    var m := n - 1;
    assert n > 0 && states[n] == Next(states[m], moves[m]);
    if PastFlag(states[m].joiner) {
      FlagWasOn(states, moves, m);
      var k: nat :| k < m && SeesFlagOn(states, moves, k) && forall i :: k < i <= m ==> PastFlag(states[i].joiner);
      assert k < n && SeesFlagOn(states, moves, k) && forall i :: k < i <= n ==> PastFlag(states[i].joiner);
    } else {
      assert SeesFlagOn(states, moves, m);
    }
  }

  /** A test that fails leads to a wait, which ends by a signal or a spurious wake-up only: for
      the link, by one that the watcher gives while it is down. */
  lemma {:induction false} FailedTestsWait(states: seq<State>, moves: seq<Move>, k: nat)
    requires IsRun(states, moves) && k < |moves|
    ensures var s, t := states[k], states[k + 1];
      && (moves[k] == Join && s.joiner == TestsFlag && !s.enabled ==> t.joiner == WaitsFlag)
      && (moves[k] == Join && s.joiner == TestsLink && s.link == CONNECTED ==> t.joiner == AboutToWait)
      && (s.joiner == AboutToWait ==> t.joiner == if moves[k] == Join then WaitsLink else AboutToWait)
      && (s.joiner == WaitsFlag && t.joiner != WaitsFlag ==>
            t.joiner == WokenFlag && (moves[k] == Spurious || (moves[k].Set? && s.setter == SignalsFlag)))
      && (s.joiner == WaitsLink && t.joiner != WaitsLink ==>
            t.joiner == WokenLink && (moves[k] == Spurious || (moves[k].Watch? && s.watcher == Signals && s.link != CONNECTED)))
  {
    InvAlways(states, moves, k);
    assert states[k + 1] == Next(states[k], moves[k]);
  }

  // ---- that the joiner does try ----

  /** How many of the moves from `n` up to `j` are the joiner's. */
  function JoinerMoves(moves: seq<Move>, n: nat, j: nat): nat
    requires n <= j <= |moves|
    decreases j - n
  {
    if n == j then 0 else (if moves[n] == Join then 1 else 0) + JoinerMoves(moves, n + 1, j)
  }

  /** How many steps the joiner is from an attempt while nothing makes it wait. */
  function ToAttempt(at: JoinerAt): nat {
    match at
    case Releases => 7
    case WantsFlag => 6
    case WokenFlag => 6
    case TestsFlag => 5
    case WantsLink => 4
    case WokenLink => 4
    case TestsLink => 3
    case Decides => 2
    case Joins => 1
    case _ => 0
  }

  /** The link is down, auto-join is on, and the joiner neither waits nor is about to. */
  predicate Trying(s: State) {
    s.link != CONNECTED && s.enabled && s.joiner !in {WaitsFlag, AboutToWait, WaitsLink}
  }

  lemma {:induction false} CloserToAttempt(s: State, m: Move)
    requires Enabled(s, m) && Trying(s) && Next(s, m).link != CONNECTED && Next(s, m).enabled
    ensures var t := Next(s, m);
      && Trying(t)
      && (m == Join && s.joiner == Joins ==> |t.attempts| == |s.attempts| + 1)
      && (!(m == Join && s.joiner == Joins) ==>
            t.attempts == s.attempts && ToAttempt(t.joiner) == ToAttempt(s.joiner) - if m == Join then 1 else 0)
  {
  }

  /** While the link stays down and auto-join on, a joiner that is not waiting makes an attempt
      by its seventh step. */
  lemma {:induction false} AttemptSoon(states: seq<State>, moves: seq<Move>, n: nat, j: nat)
    requires IsRun(states, moves) && n <= j <= |moves| && Trying(states[n])
    requires forall i :: n <= i <= j ==> states[i].link != CONNECTED && states[i].enabled
    requires JoinerMoves(moves, n, j) >= ToAttempt(states[n].joiner)
    ensures ToAttempt(states[n].joiner) <= 7
    ensures exists k :: n < k <= j && |states[k].attempts| == |states[n].attempts| + 1
    decreases j - n
  {
    hide Next, Enabled;
    CloserToAttempt(states[n], moves[n]);
    if !(moves[n] == Join && states[n].joiner == Joins) {
      AttemptSoon(states, moves, n + 1, j);
    }
  }

  // ---- the watcher and the setter ----

  /** All lines of the polls begun in the first `n` moves. */
  function Answers(states: seq<State>, moves: seq<Move>, n: nat): seq<Option<int>>
    requires n <= |moves| && n <= |states|
  {
    if n == 0 then []
    else
      Answers(states, moves, n - 1)
      + if moves[n - 1].Watch? && states[n - 1].watcher == Asleep then moves[n - 1].lines else []
  }

  /** The link state after these lines. */
  function LinkAfter(link: int, lines: seq<Option<int>>): int {
    if lines == [] then link
    else
      var l := lines[|lines| - 1];
      if l.Some? then l.value else LinkAfter(link, lines[..|lines| - 1])
  }

  function DownLines(link: int, lines: seq<Option<int>>): nat {
    if lines == [] then 0
    else DownLines(link, lines[..|lines| - 1]) + if LinkAfter(link, lines) != CONNECTED then 1 else 0
  }

  /** How many signals the watcher gave in the first `n` moves. */
  function Signalled(states: seq<State>, moves: seq<Move>, n: nat): nat
    requires n <= |moves| && n <= |states|
  {
    if n == 0 then 0
    else Signalled(states, moves, n - 1) + if moves[n - 1].Watch? && states[n - 1].watcher == Signals then 1 else 0
  }

  /** The watcher still owes a signal for the line it handled last. */
  predicate OwesSignal(s: State) {
    s.watcher in {WantsNet, Signals} || (s.watcher == Stored && s.link != CONNECTED)
  }

  /** What the watcher did, given the lines it handled: the link is that of the last role line,
      and each line that left it down was signalled once, or is about to be. */
  ghost predicate Did(s: State, link: int, done: seq<Option<int>>, signals: nat) {
    && s.link == LinkAfter(link, done)
    && DownLines(link, done) == signals + (if OwesSignal(s) then 1 else 0)
    && (s.watcher == Asleep ==> s.lines == [])
  }

  lemma {:induction false} OthersLeaveWatcher(s: State, m: Move)
    requires Enabled(s, m) && !m.Watch?
    ensures var t := Next(s, m); t.link == s.link && t.watcher == s.watcher && t.lines == s.lines
  {
  }

  lemma {:induction false} LinkAfterLine(link: int, done: seq<Option<int>>, l: Option<int>)
    ensures LinkAfter(link, done + [l]) == if l.Some? then l.value else LinkAfter(link, done)
    ensures DownLines(link, done + [l]) == DownLines(link, done) + if LinkAfter(link, done + [l]) != CONNECTED then 1 else 0
  {
    assert (done + [l])[..|done|] == done;
  }

  lemma {:induction false} DidWatch(s: State, polled: seq<Option<int>>, link: int, done: seq<Option<int>>, signals: nat)
    requires SignalsWhenDown(s) && Did(s, link, done, signals)
    ensures var t, handles := WatcherStep(s, polled), s.watcher == NextLine && s.lines != [];
      && Did(t, link, if handles then done + [s.lines[0]] else done, signals + (if s.watcher == Signals then 1 else 0))
      && t.lines == (if s.watcher == Asleep then polled else if handles then s.lines[1..] else s.lines)
  {
    hide LinkAfter, DownLines;
    if s.lines != [] {
      LinkAfterLine(link, done, s.lines[0]);
    }
  }

  lemma {:induction false} DidStep(s: State, m: Move, link: int, done: seq<Option<int>>, signals: nat)
    requires Enabled(s, m) && SignalsWhenDown(s) && Did(s, link, done, signals)
    ensures var t, handles := Next(s, m), m.Watch? && s.watcher == NextLine && s.lines != [];
      && Did(t, link, if handles then done + [s.lines[0]] else done,
             signals + (if m.Watch? && s.watcher == Signals then 1 else 0))
      && t.lines == (if m.Watch? && s.watcher == Asleep then m.lines else if handles then s.lines[1..] else s.lines)
  {
    hide WatcherStep, JoinerStep, SetterStep, Enabled, LinkAfter, DownLines;
    if m.Watch? {
      DidWatch(s, m.lines, link, done, signals);
    } else {
      OthersLeaveWatcher(s, m);
    }
  }

  lemma {:induction false} NothingDone(s: State)
    requires exists link, on :: s == Initial(link, on)
    ensures Did(s, s.link, [], 0) && s.lines == []
  {
  }

  lemma {:induction false} AsleepIsDone(s: State, link: int, done: seq<Option<int>>, signals: nat)
    requires Did(s, link, done, signals)
    ensures s.watcher == Asleep ==> s.lines == []
  {
  }

  lemma {:induction false} SignalsAlways(states: seq<State>, moves: seq<Move>, n: nat)
    requires IsRun(states, moves) && n < |states|
    ensures SignalsWhenDown(states[n])
  {
    InvAlways(states, moves, n);
  }

  lemma {:induction false} OneMove(states: seq<State>, moves: seq<Move>, n: nat)
    requires IsRun(states, moves) && n < |moves|
    ensures Enabled(states[n], moves[n]) && states[n + 1] == Next(states[n], moves[n])
  {
  }

  lemma {:induction false} LinesAddUp(before: seq<Option<int>>, left: seq<Option<int>>, polled: seq<Option<int>>,
                                      starts: bool, handles: bool)
    requires (starts ==> left == [] && !handles) && (handles ==> left != [])
    ensures before + left + (if starts then polled else []) ==
      (if handles then before + [left[0]] else before) + if starts then polled else if handles then left[1..] else left
  {
  }

  lemma {:induction false} CountsStep(states: seq<State>, moves: seq<Move>, n: nat)
    requires n < |moves| && n < |states| - 1
    ensures Answers(states, moves, n + 1) ==
      Answers(states, moves, n) + if moves[n].Watch? && states[n].watcher == Asleep then moves[n].lines else []
    ensures Signalled(states, moves, n + 1) ==
      Signalled(states, moves, n) + if moves[n].Watch? && states[n].watcher == Signals then 1 else 0
    ensures Answers(states, moves, 0) == [] && Signalled(states, moves, 0) == 0
  {
  }

  /** What the watcher did when it has handled these lines and has others left. */
  ghost predicate KeptUp(states: seq<State>, moves: seq<Move>, n: nat, done: seq<Option<int>>)
    requires n <= |moves| && n < |states|
  {
    && Answers(states, moves, n) == done + states[n].lines
    && Did(states[n], states[0].link, done, Signalled(states, moves, n))
  }

  lemma {:induction false} RunLength(states: seq<State>, moves: seq<Move>)
    requires IsRun(states, moves)
    ensures |states| == |moves| + 1
  {
  }

  lemma {:induction false} KeepsUpStep(states: seq<State>, moves: seq<Move>, n: nat, before: seq<Option<int>>)
      returns (done: seq<Option<int>>)
    requires IsRun(states, moves) && n < |moves| && KeptUp(states, moves, n, before)
    ensures KeptUp(states, moves, n + 1, done)
  {
    hide Next, Enabled, Did, IsRun, SignalsWhenDown, Answers, Signalled;
    RunLength(states, moves);
    var s, m := states[n], moves[n];
    SignalsAlways(states, moves, n);
    OneMove(states, moves, n);
    CountsStep(states, moves, n);
    AsleepIsDone(s, states[0].link, before, Signalled(states, moves, n));
    DidStep(s, m, states[0].link, before, Signalled(states, moves, n));
    var starts, handles := m.Watch? && s.watcher == Asleep, m.Watch? && s.watcher == NextLine && s.lines != [];
    LinesAddUp(before, s.lines, if m.Watch? then m.lines else [], starts, handles);
    done := if handles then before + [s.lines[0]] else before;
  }

  /** In every interleaving the lines of all polls so far are those handled and those left, and
      the watcher did with the former what it should. */
  lemma {:induction false} WatcherKeepsUp(states: seq<State>, moves: seq<Move>, n: nat) returns (done: seq<Option<int>>)
    requires IsRun(states, moves) && n < |states|
    ensures Answers(states, moves, n) == done + states[n].lines
    ensures Did(states[n], states[0].link, done, Signalled(states, moves, n))
  {
    if n == 0 {
      done := [];
      NothingDone(states[0]);
    } else {
      hide Next, Enabled, Did;
      var before := WatcherKeepsUp(states, moves, n - 1);
      done := KeepsUpStep(states, moves, n - 1, before);
    }
  }

  /** A joiner that waits for a flag that is on is about to be signalled by the setter, which
      nothing can hold up. */
  lemma {:induction false} FlagNotLost(states: seq<State>, moves: seq<Move>, n: nat)
    requires IsRun(states, moves) && n < |states| && states[n].joiner == WaitsFlag && states[n].enabled
    ensures states[n].setter == SignalsFlag && CanStep(states[n], Setter)
    ensures forall on :: Next(states[n], Set(on)).joiner == WokenFlag
  {
    if n > 0 {
      var m := n - 1;
      assert states[n] == Next(states[m], moves[m]);
      if states[m].joiner == WaitsFlag && states[m].enabled {
        FlagNotLost(states, moves, m);
      }
    }
  }

  /** The flag is what was set last. */
  lemma {:induction false} FlagIsLast(states: seq<State>, moves: seq<Move>, k: nat, n: nat)
    requires IsRun(states, moves) && k < n < |states|
    requires moves[k] == Clear || (moves[k].Set? && states[k].setter == Sets)
    requires forall i :: k < i < n ==> moves[i] != Clear && !(moves[i].Set? && states[i].setter == Sets)
    ensures states[n].enabled == (moves[k].Set? && moves[k].on)
  {
    assert states[n] == Next(states[n - 1], moves[n - 1]);
    if k < n - 1 {
      FlagIsLast(states, moves, k, n - 1);
    }
  }
}
