/** The service loop around the heartbeat table, and how old an entry can get. All times
    are seconds as the loop reads them from the clock. */
module HeartbeatService {
  import opened Options
  import opened Heartbeats

  datatype Arrival = Arrival(ip: string, at: int)

  /** One pass of the loop: when it starts, when a cleanup in it reads the clock, and the
      heartbeat it takes in, if any. */
  datatype Pass = Pass(now: int, cleaned: int, beat: Option<Arrival>)

  datatype State = State(table: seq<Peer>, lastSend: int)

  predicate Due(s: State, p: Pass) {
    p.now - s.lastSend >= INTERVAL
  }

  function Cleaned(s: State, p: Pass): State {
    if Due(s, p) then State(Fresh(s.table, p.cleaned), p.now) else s
  }

  function Step(s: State, p: Pass): State {
    var c := Cleaned(s, p);
    match p.beat
    case None => c
    case Some(b) => c.(table := Touch(c.table, b.ip, b.at))
  }

  function After(passes: seq<Pass>): State {
    if passes == [] then State([], 0) else Step(After(passes[..|passes| - 1]), passes[|passes| - 1])
  }

  // ---- the loop as a run of the table ----

  /** When the loop last sent a heartbeat. */
  function Sent(passes: seq<Pass>): int {
    if passes == [] then 0
    else
      var before, now := Sent(passes[..|passes| - 1]), passes[|passes| - 1].now;
      if now - before >= INTERVAL then now else before
  }

  function EventsOf(p: Pass, sends: bool): seq<Event> {
    (if sends then [Clean(p.cleaned)] else []) + (if p.beat.Some? then [Beat(p.beat.value.ip, p.beat.value.at)] else [])
  }

  /** What happens to the table: a cleanup in every pass that comes a minute or more after the
      last heartbeat was sent, and then the heartbeat that the pass takes in. */
  function Events(passes: seq<Pass>): seq<Event> {
    if passes == [] then []
    else
      var init, p := passes[..|passes| - 1], passes[|passes| - 1];
      Events(init) + EventsOf(p, p.now - Sent(init) >= INTERVAL)
  }

  lemma {:induction false} TableAppend(events: seq<Event>, e: Event)
    ensures Table(events + [e]) == match e
      case Beat(ip, at) => Touch(Table(events), ip, at)
      case Clean(at) => Fresh(Table(events), at)
  {
    assert (events + [e])[..|events|] == events;
  }

  lemma {:induction false} NoEvents()
    ensures Table([]) == [] && Events([]) == []
  {
  }

  /** After any passes the table is that of their events, no heartbeat being lost to a cleanup,
      and the time of the last send is kept. */
  lemma {:induction false} LoopIsRun(passes: seq<Pass>)
    ensures After(passes) == State(Table(Events(passes)), Sent(passes))
  {
    hide Table, Touch, Fresh;
    if passes == [] {
      NoEvents();
    } else {
      var init, p := passes[..|passes| - 1], passes[|passes| - 1];
      LoopIsRun(init);
      var before := Events(init);
      var sends := p.now - Sent(init) >= INTERVAL;
      var cleaned := if sends then before + [Clean(p.cleaned)] else before;
      TableAppend(before, Clean(p.cleaned));
      if p.beat.Some? {
        TableAppend(cleaned, Beat(p.beat.value.ip, p.beat.value.at));
        assert before + EventsOf(p, sends) == cleaned + [Beat(p.beat.value.ip, p.beat.value.at)];
      } else {
        assert before + EventsOf(p, sends) == cleaned;
      }
    }
  }

  /** No pass takes more than `d` seconds, and the clock does not go back. */
  ghost predicate Paced(passes: seq<Pass>, d: int) {
    && (forall i :: 0 <= i < |passes| ==>
          && 0 <= passes[i].now <= passes[i].cleaned <= passes[i].now + d
          && (passes[i].beat.Some? ==> passes[i].cleaned <= passes[i].beat.value.at <= passes[i].now + d))
    && (forall i :: 0 < i < |passes| ==>
          && passes[i - 1].cleaned <= passes[i].now <= passes[i - 1].now + d
          && (passes[i - 1].beat.Some? ==> passes[i - 1].beat.value.at <= passes[i].now))
  }

  /** Between passes: the last heartbeat was sent less than a minute before the last pass
      began, and no entry is older than what that send's cleanup let stay. */
  ghost predicate Kept(passes: seq<Pass>) {
    var s := After(passes);
    && (forall p :: p in s.table ==> p.last >= s.lastSend - TIMEOUT)
    && Distinct(s.table)
    && (passes == [] ==> s.table == [])
    && (passes != [] ==> 0 <= s.lastSend <= passes[|passes| - 1].now < s.lastSend + INTERVAL)
  }

  lemma {:induction false} KeptStep(s: State, p: Pass)
    requires Distinct(s.table) && s.lastSend <= p.now <= p.cleaned
    requires p.beat.Some? ==> p.cleaned <= p.beat.value.at
    requires forall q :: q in s.table ==> q.last >= s.lastSend - TIMEOUT
    ensures var t := Step(s, p);
      && Distinct(t.table)
      && (forall q :: q in t.table ==> q.last >= t.lastSend - TIMEOUT)
      && t.lastSend <= p.now < t.lastSend + INTERVAL
  {
    FreshIs(s.table, p.cleaned);
    var c := Cleaned(s, p);
    if p.beat.Some? {
      var b := p.beat.value;
      TouchIs(c.table, b.ip, b.at);
      var t := Step(s, p).table;
      forall q | q in t ensures q.last >= c.lastSend - TIMEOUT {
        if q.ip == b.ip && (!Absent(c.table, b.ip) || |c.table| < CAPACITY) {
          SamePeer(t, q, Peer(b.ip, b.at));
        }
      }
    }
  }

  lemma {:induction false} AlwaysKept(passes: seq<Pass>, d: int)
    requires Paced(passes, d)
    ensures Kept(passes)
  {
    if passes != [] {
      var n := |passes| - 1;
      var init := passes[..n];
      assert Paced(init, d);
      AlwaysKept(init, d);
      if init != [] {
        assert passes[n - 1].now <= passes[n].now;
      }
      KeptStep(After(init), passes[n]);
    }
  }

  /** Whenever the loop begins a pass, every entry is less than 15 + 60 + d seconds old. */
  lemma {:induction false} AgeAtLoopHead(passes: seq<Pass>, d: int, p: Peer)
    requires passes != [] && Paced(passes, d)
    requires p in After(passes[..|passes| - 1]).table
    ensures passes[|passes| - 1].now - p.last < TIMEOUT + INTERVAL + d
  {
    var n := |passes| - 1;
    assert Paced(passes[..n], d);
    AlwaysKept(passes[..n], d);
    assert passes[n].now <= passes[n - 1].now + d;
  }

  /** The table holds the entry at this time of the last pass: up to the time of the cleanup,
      or from then on until the pass may end. */
  ghost predicate Observed(passes: seq<Pass>, d: int, p: Peer, time: int) {
    && passes != [] && Paced(passes, d)
    && var n := |passes| - 1;
      var s, last := After(passes[..n]), passes[n];
      || (p in s.table && last.now <= time <= last.cleaned)
      || ((p in Cleaned(s, last).table || p in After(passes).table) && last.cleaned <= time <= last.now + d)
  }

  /** At any time within the last pass, before or after its cleanup and its heartbeat, every
      entry is less than 15 + 60 + 2d seconds old, and less than 15 + 60 + d in a pass
      that is not due to clean up. */
  lemma {:induction false} AgeWithinPass(passes: seq<Pass>, d: int, p: Peer, time: int)
    requires Observed(passes, d, p, time)
    ensures time - p.last < TIMEOUT + INTERVAL + 2 * d
    ensures !Due(After(passes[..|passes| - 1]), passes[|passes| - 1]) ==> time - p.last < TIMEOUT + INTERVAL + d
  {
    var n := |passes| - 1;
    var s := After(passes[..n]);
    assert Paced(passes[..n], d);
    AlwaysKept(passes[..n], d);
    AlwaysKept(passes, d);
    FreshIs(s.table, passes[n].cleaned);
    if p in s.table {
      assert n > 0;
      assert passes[n].now <= passes[n - 1].now + d;
    }
  }

  lemma {:induction false} AfterOne(passes: seq<Pass>, p: Pass)
    ensures After(passes + [p]) == Step(After(passes), p)
  {
    assert (passes + [p])[..|passes|] == passes;
  }

  class Service {
    const peers: McTable
    var lastSend: int
    ghost var passes: seq<Pass>

    /** The table holds what the passes so far make of it. */
    ghost predicate Valid()
      reads this, peers, peers.nodes
    {
      peers.Valid() && State(peers.Contents(), lastSend) == After(passes)
    }

    constructor ()
      ensures Valid() && fresh(peers) && fresh(peers.nodes) && passes == []
    {
      peers := new McTable();
      lastSend, passes := 0, [];
      new;
      LoopIsRun([]);
    }

    /** One pass of the loop in `wtsl_core_splink_gnode_service`. */
    method RunPass(p: Pass)
      requires Valid()
      modifies this, peers, peers.nodes
      ensures Valid() && passes == old(passes) + [p]
      ensures peers.Contents() == Table(Events(passes)) && lastSend == Sent(passes)
    {
      hide After, Table, Events, Sent, Touch, Fresh;
      AfterOne(passes, p);
      passes := passes + [p];
      LoopIsRun(passes);
      if p.now - lastSend >= INTERVAL {
        lastSend := p.now;
        peers.CleanTimeoutNodes(p.cleaned);
      }
      if p.beat.Some? {
        peers.UpdateNodeList(p.beat.value.ip, p.beat.value.at);
      }
    }
  }

  lemma {:induction false} AfterNothing(passes: seq<Pass>)
    requires passes == []
    ensures After(passes) == State([], 0)
  {
  }

  /** The `k`th pass of a service that looks once a second, and hears of one peer after
      three quarters of a minute. */
  function Tick(k: nat): Pass {
    Pass(1000 + k, 1000 + k, if k == 45 then Some(Arrival("a", 1045)) else None)
  }

  function Ticks(n: nat): seq<Pass> {
    seq(n, k requires 0 <= k < n => Tick(k))
  }

  /** Two cleanups, at 1000 and at 1060; the second keeps the peer. */
  lemma {:induction false} AfterTicks(n: nat)
    requires n <= 120
    ensures After(Ticks(n)) ==
      State(if n <= 45 then [] else [Peer("a", 1045)], if n == 0 then 0 else if n <= 60 then 1000 else 1060)
  {
    hide After;
    AfterNothing(Ticks(0));
    if n > 0 {
      AfterTicks(n - 1);
      AfterOne(Ticks(n - 1), Tick(n - 1));
      assert Ticks(n) == Ticks(n - 1) + [Tick(n - 1)];
      FreshOfNothing(1000);
      FreshOne(Peer("a", 1045), 1060);
    }
  }

  /** The bounds of `AgeAtLoopHead` and `AgeWithinPass` are reached for every `d` of at least a second: after two
      minutes of ticks comes a pass that begins as late as it may, and cleans up as late
      as it may. */
  lemma {:induction false} OldestEntry(d: nat) returns (passes: seq<Pass>, last: Pass, p: Peer)
    requires d >= 1
    ensures passes != [] && last == passes[|passes| - 1]
    ensures Paced(passes, d) && p in After(passes[..|passes| - 1]).table
    ensures last.now - p.last == TIMEOUT + INTERVAL + d - 1
    ensures Observed(passes, d, p, last.cleaned) && last.cleaned - p.last == TIMEOUT + INTERVAL + 2 * d - 1
  {
    hide After, Touch, Fresh;
    last := Pass(1119 + d, 1119 + 2 * d, None);
    passes := Ticks(120) + [last];
    p := Peer("a", 1045);
    AfterTicks(120);
    assert passes[..120] == Ticks(120);
    assert forall i :: 0 <= i < 120 ==> passes[i] == Tick(i);
  }

  /** No entry is ever older than 15 + 60 + d seconds if and only if passes take at most
      one second: beyond that a slow pass can come late to its cleanup after having begun
      late. */
  lemma {:induction false} SingleBoundExactly(d: nat)
    ensures (forall passes, p, time :: Observed(passes, d, p, time) ==> time - p.last <= TIMEOUT + INTERVAL + d)
      <==> d <= 1
  {
    forall passes, p, time | d <= 1 && Observed(passes, d, p, time)
      ensures time - p.last <= TIMEOUT + INTERVAL + d
    {
      AgeWithinPass(passes, d, p, time);
    }
    if d > 1 {
      var passes, last, p := OldestEntry(d);
    }
  }

  lemma {:induction false} LastSendGrows(passes: seq<Pass>, d: int, i: nat, j: nat)
    requires Paced(passes, d) && i < j <= |passes|
    requires Due(After(passes[..i]), passes[i])
    ensures After(passes[..j]).lastSend >= passes[i].now
    decreases j
  {
    assert passes[..j][..j - 1] == passes[..j - 1];
    if i < j - 1 {
      LastSendGrows(passes, d, i, j - 1);
    }
  }

  /** Cleanups read the clock at most `e` seconds after their pass begins. */
  ghost predicate CleansWithin(passes: seq<Pass>, e: int) {
    forall i :: 0 <= i < |passes| ==> passes[i].cleaned <= passes[i].now + e
  }

  /** In a run the passes at `i` and then at `j` send a heartbeat and clean up. */
  ghost predicate CleanupPair(passes: seq<Pass>, d: int, e: int, i: nat, j: nat) {
    && Paced(passes, d) && CleansWithin(passes, e) && i < j < |passes|
    && Due(After(passes[..i]), passes[i]) && Due(After(passes[..j]), passes[j])
  }

  /** The least that two cleanups can be apart by their own readings of the clock. */
  function CleanupGap(e: nat): nat {
    if e < INTERVAL then INTERVAL - e else 0
  }

  lemma {:induction false} ClockForward(passes: seq<Pass>, d: int, i: nat, j: nat)
    requires Paced(passes, d) && i < j < |passes|
    ensures passes[i].cleaned <= passes[j].cleaned
    decreases j
  {
    assert passes[j - 1].cleaned <= passes[j].now;
    if i < j - 1 {
      ClockForward(passes, d, i, j - 1);
    }
  }

  /** Two heartbeats are sent at least 60 seconds apart, and their cleanups read the clock
      at least 60 - e seconds apart. */
  lemma {:induction false} CleanupsApart(passes: seq<Pass>, d: nat, e: nat, i: nat, j: nat)
    requires CleanupPair(passes, d, e, i, j)
    ensures passes[j].now - passes[i].now >= INTERVAL
    ensures passes[j].cleaned - passes[i].cleaned >= CleanupGap(e)
  {
    LastSendGrows(passes, d, i, j);
    ClockForward(passes, d, i, j);
  }

  /** The `k`th pass of a service that cleans up late once, and then looks once a second. */
  function LateTick(late: nat, k: nat): Pass {
    if k == 0 then Pass(1000, 1000 + late, None) else Pass(999 + late + k, 999 + late + k, None)
  }

  function LateTicks(late: nat, n: nat): seq<Pass> {
    seq(n, k requires 0 <= k < n => LateTick(late, k))
  }

  lemma {:induction false} AfterLateTicks(late: nat, n: nat)
    requires 0 < n && late + n <= 61
    ensures After(LateTicks(late, n)) == State([], 1000)
  {
    var init := LateTicks(late, n - 1);
    AfterOne(init, LateTick(late, n - 1));
    assert LateTicks(late, n) == init + [LateTick(late, n - 1)];
    if n > 1 {
      AfterLateTicks(late, n - 1);
    } else {
      FreshOfNothing(1000 + late);
    }
  }

  lemma {:induction false} LateTicksPaced(late: nat, d: nat, e: nat, n: nat)
    requires late <= e <= d && 1 <= d
    ensures Paced(LateTicks(late, n), d) && CleansWithin(LateTicks(late, n), e)
  {
    var passes := LateTicks(late, n);
    assert forall i :: 0 <= i < n ==> passes[i] == LateTick(late, i);
  }

  /** That least gap is reached for every `e` up to `d`, and every `d` of at least a second. */
  lemma {:induction false} ClosestCleanups(d: nat, e: nat) returns (passes: seq<Pass>, j: nat)
    requires 1 <= d && e <= d
    ensures CleanupPair(passes, d, e, 0, j) && passes[j].cleaned - passes[0].cleaned == CleanupGap(e)
  {
    hide After, Paced, CleansWithin;
    var late := if e < INTERVAL then e else INTERVAL;
    j := 61 - late;
    passes := LateTicks(late, j + 1);
    LateTicksPaced(late, d, e, j + 1);
    AfterLateTicks(late, j);
    assert passes[..j] == LateTicks(late, j);
    AfterNothing(passes[..0]);
  }

  /** Cleanups read the clock at least 60 seconds apart in every run if and only if they read
      it when their pass begins. */
  lemma {:induction false} MinuteApartExactly(d: nat, e: nat)
    requires 1 <= d && e <= d
    ensures (forall passes: seq<Pass>, i: nat, j: nat :: CleanupPair(passes, d, e, i, j) ==>
               passes[j].cleaned - passes[i].cleaned >= INTERVAL)
      <==> e == 0
  {
    forall passes: seq<Pass>, i: nat, j: nat | e == 0 && CleanupPair(passes, d, e, i, j)
      ensures passes[j].cleaned - passes[i].cleaned >= INTERVAL
    {
      CleanupsApart(passes, d, e, i, j);
    }
    if e > 0 {
      var passes, j := ClosestCleanups(d, e);
    }
  }

  /** When no time passes within or between passes there is no second cleanup at all. */
  lemma {:induction false} NoTimeNoPair(passes: seq<Pass>, e: nat, i: nat, j: nat)
    ensures !CleanupPair(passes, 0, e, i, j)
  {
  }

  // ---- what the table says ----

  /** No event is later than this. */
  ghost predicate Until(events: seq<Event>, time: int) {
    forall i :: 0 <= i < |events| ==> events[i].at <= time
  }

  lemma {:induction false} TimedConcat(a: seq<Event>, b: seq<Event>, time: int)
    requires Timed(a) && Timed(b) && Until(a, time) && forall i :: 0 <= i < |b| ==> time <= b[i].at
    ensures Timed(a + b)
  {
    var all := a + b;
    forall i, j | 0 <= i < j < |all| ensures all[i].at <= all[j].at {
      assert all[i] == if i < |a| then a[i] else b[i - |a|];
      assert all[j] == if j < |a| then a[j] else b[j - |a|];
    }
  }

  /** When a pass is done with the table. */
  function EndOf(p: Pass): int {
    if p.beat.Some? then p.beat.value.at else p.cleaned
  }

  lemma {:induction false} EndsBefore(passes: seq<Pass>, d: int)
    requires Paced(passes, d) && passes != []
    ensures var n := |passes| - 1;
      passes[n].now <= passes[n].cleaned <= EndOf(passes[n]) && (n > 0 ==> EndOf(passes[..n][n - 1]) <= passes[n].now)
  {
    var n := |passes| - 1;
    if n > 0 {
      assert passes[n - 1].cleaned <= passes[n].now;
    }
  }

  lemma {:induction false} UntilConcat(a: seq<Event>, b: seq<Event>, time: int, later: int)
    requires Until(a, time) && time <= later && Until(b, later)
    ensures Until(a + b, later)
  {
    var all := a + b;
    forall i | 0 <= i < |all| ensures all[i].at <= later {
      assert all[i] == if i < |a| then a[i] else b[i - |a|];
    }
  }

  lemma {:induction false} EventsOfTimed(p: Pass, sends: bool)
    requires p.now <= p.cleaned <= EndOf(p)
    ensures var more := EventsOf(p, sends); Timed(more) && Until(more, EndOf(p)) && forall i :: 0 <= i < |more| ==> p.now <= more[i].at
  {
  }

  lemma {:induction false} UntilLater(events: seq<Event>, time: int, later: int)
    requires Until(events, time) && time <= later
    ensures Until(events, later)
  {
  }

  lemma {:induction false} PacedBefore(passes: seq<Pass>, d: int)
    requires Paced(passes, d) && passes != []
    ensures Paced(passes[..|passes| - 1], d)
  {
  }

  lemma {:induction false} NothingUntil(time: int)
    ensures Until([], time)
  {
  }

  /** The events of a run come in the order of their times, none after the last pass. */
  lemma {:induction false} EventsTimed(passes: seq<Pass>, d: int)
    requires Paced(passes, d)
    ensures Timed(Events(passes))
    ensures if passes == [] then Events(passes) == [] else Until(Events(passes), EndOf(passes[|passes| - 1]))
  {
    hide Paced, Sent, EventsOf, EndOf, Until;
    if passes == [] {
      NoEvents();
    } else {
      var n := |passes| - 1;
      var init, p := passes[..n], passes[n];
      PacedBefore(passes, d);
      EventsTimed(init, d);
      EndsBefore(passes, d);
      NothingUntil(p.now);
      if n > 0 {
        UntilLater(Events(init), EndOf(init[n - 1]), p.now);
      }
      var more := EventsOf(p, p.now - Sent(init) >= INTERVAL);
      EventsOfTimed(p, p.now - Sent(init) >= INTERVAL);
      TimedConcat(Events(init), more, p.now);
      UntilConcat(Events(init), more, p.now, EndOf(p));
    }
  }

  /** In the service, right after a cleanup, if no heartbeat found the table full, a peer is
      listed exactly if its latest heartbeat is at most 15 seconds old. */
  lemma {:induction false} ServiceListsExactly(passes: seq<Pass>, d: int, ip: string)
    requires passes != [] && Paced(passes, d)
    requires var n := |passes| - 1; Due(After(passes[..n]), passes[n]) && NeverDropped(Events(passes[..n]))
    ensures var n := |passes| - 1;
      var s, heard := Cleaned(After(passes[..n]), passes[n]).table, Latest(Events(passes[..n]), ip);
      && Distinct(s)
      && (!Absent(s, ip) <==> heard.Some? && passes[n].cleaned - heard.value <= TIMEOUT)
      && (!Absent(s, ip) ==> Peer(ip, heard.value) in s)
  {
    hide Table, Fresh, Latest, NeverDropped, Events, Sent;
    var n := |passes| - 1;
    var events, p := Events(passes[..n]), passes[n];
    assert Paced(passes[..n], d);
    EventsTimed(passes[..n], d);
    EndsBefore(passes, d);
    if n == 0 {
      NoEvents();
    }
    TimedConcat(events, [Clean(p.cleaned)], p.cleaned);
    LoopIsRun(passes[..n]);
    CleanupIsExact(events, p.cleaned, ip);
    TableAppend(events, Clean(p.cleaned));
  }
}
