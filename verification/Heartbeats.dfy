/** The multicast heartbeat table: a bounded array of peers, kept by the service loop. */
module Heartbeats {
  import opened CText
  import opened Options

  const CAPACITY: nat := 1024
  const INTERVAL := 60         // HEARTBEAT_INTERVAL, seconds
  const TIMEOUT := 15          // NODE_TIMEOUT, seconds
  const PREFIX := "HEARTBEAT:"

  datatype Peer = Peer(ip: string, last: int)

  // ---- the table as a sequence ----

  /** The position of a peer, or the length. */
  function Position(s: seq<Peer>, ip: string): (n: nat)
    ensures n <= |s| && (n < |s| ==> s[n].ip == ip) && forall i :: 0 <= i < n ==> s[i].ip != ip
  {
    if s == [] || s[0].ip == ip then 0 else 1 + Position(s[1..], ip)
  }

  /** A heartbeat: it sets the time of a known peer and adds a new one if there is room. */
  function Touch(s: seq<Peer>, ip: string, now: int): seq<Peer> {
    var n := Position(s, ip);
    if n < |s| then s[n := Peer(ip, now)]
    else if |s| < CAPACITY then s + [Peer(ip, now)]
    else s
  }

  predicate IsFresh(p: Peer, now: int) {
    now - p.last <= TIMEOUT
  }

  /** The peers that are not timed out, in their order. */
  function Fresh(s: seq<Peer>, now: int): (r: seq<Peer>)
    ensures |r| <= |s|
  {
    if s == [] then []
    else if IsFresh(s[0], now) then [s[0]] + Fresh(s[1..], now)
    else Fresh(s[1..], now)
  }

  ghost predicate Distinct(s: seq<Peer>) {
    forall i, j :: 0 <= i < j < |s| ==> s[i].ip != s[j].ip
  }

  lemma {:induction false} FreshOfNothing(now: int)
    ensures Fresh([], now) == []
  {
  }

  /** What a look at the first peer that is left does to the result. */
  lemma {:induction false} FreshHead(kept: seq<Peer>, rest: seq<Peer>, now: int)
    requires rest != []
    ensures kept + Fresh(rest, now) ==
      (if IsFresh(rest[0], now) then kept + [rest[0]] else kept) + Fresh(rest[1..], now)
  {
    if IsFresh(rest[0], now) {
      assert kept + ([rest[0]] + Fresh(rest[1..], now)) == kept + [rest[0]] + Fresh(rest[1..], now);
    }
  }

  lemma {:induction false} PositionIs(s: seq<Peer>, ip: string, n: nat)
    requires n <= |s| && (n < |s| ==> s[n].ip == ip) && forall i :: 0 <= i < n ==> s[i].ip != ip
    ensures Position(s, ip) == n
  {
    var m := Position(s, ip);
    assert m < n || n < m || m == n;
  }

  class McTable {
    const nodes: array<Peer>
    var count: int

    ghost predicate Valid()
      reads this
    {
      nodes.Length == CAPACITY && 0 <= count <= CAPACITY
    }

    function Contents(): seq<Peer>
      requires Valid()
      reads this, nodes
    {
      nodes[..count]
    }

    constructor ()
      ensures Valid() && Contents() == [] && fresh(nodes)
    {
      nodes := new Peer[CAPACITY](_ => Peer([], 0));
      count := 0;
    }

    /** `update_node_list`. */
    method UpdateNodeList(ip: string, now: int)
      requires Valid()
      modifies this, nodes
      ensures Valid() && Contents() == Touch(old(Contents()), ip, now)
    {
      ghost var s := Contents();
      var i := 0;
      while i < count
        invariant 0 <= i <= count && Contents() == s && count == old(count)
        invariant forall k :: 0 <= k < i ==> s[k].ip != ip
      {
        if nodes[i].ip == ip {
          PositionIs(s, ip, i);
          nodes[i] := Peer(ip, now);
          assert Contents() == s[i := Peer(ip, now)];
          return;
        }
        i := i + 1;
      }
      PositionIs(s, ip, |s|);
      if count < CAPACITY {
        nodes[count] := Peer(ip, now);
        count := count + 1;
        assert Contents() == s + [Peer(ip, now)];
      }
    }

    /** Closes the gap at `i` by moving every later peer one place up. */
    method ShiftDown(i: nat)
      requires Valid() && i < count
      modifies this, nodes
      ensures Valid() && count == old(count) - 1
      ensures nodes[..i] == old(nodes[..i]) && nodes[i..count] == old(nodes[i + 1..count])
    {
      ghost var s := nodes[..];
      var j := i;
      while j < count - 1
        invariant i <= j < count == old(count)
        invariant forall k :: 0 <= k < i || j <= k < nodes.Length ==> nodes[k] == s[k]
        invariant forall k :: i <= k < j ==> nodes[k] == s[k + 1]
      {
        nodes[j] := nodes[j + 1];
        j := j + 1;
      }
      count := count - 1;
      assert nodes[..i] == s[..i];
      assert nodes[i..count] == s[i + 1..count + 1];
    }

    /** What a cleanup that has got to `i` will leave. */
    ghost function Outcome(i: nat, now: int): seq<Peer>
      requires Valid() && i <= count
      reads this, nodes
    {
      nodes[..i] + Fresh(nodes[i..count], now)
    }

    /** Looks at the peer at `i`: the result is where to look next, which is the same place
        after a removal. */
    method CleanOne(i: nat, now: int) returns (next: nat)
      requires Valid() && i < count
      modifies this, nodes
      ensures Valid() && next <= count && count - next < old(count) - i
      ensures Outcome(next, now) == old(Outcome(i, now))
    {
      hide Fresh;
      ghost var kept, rest := nodes[..i], nodes[i..count];
      assert rest[0] == nodes[i] && rest[1..] == nodes[i + 1..count];
      FreshHead(kept, rest, now);
      var at: int := i;
      if now - nodes[i].last > TIMEOUT {
        ShiftDown(i);
        at := at - 1;
      } else {
        assert nodes[..i + 1] == kept + [nodes[i]];
      }
      next := at + 1;
    }

    /** `clean_timeout_mc_nodes`: compacts the array in place to the peers that are not
        timed out. */
    method CleanTimeoutNodes(now: int)
      requires Valid()
      modifies this, nodes
      ensures Valid() && Contents() == Fresh(old(Contents()), now)
    {
      hide Fresh;
      var i: nat := 0;
      while i < count
        invariant Valid() && i <= count
        invariant Outcome(i, now) == Fresh(old(Contents()), now)
        decreases count - i
      {
        i := CleanOne(i, now);
      }
      assert nodes[i..count] == [];
      FreshOfNothing(now);
    }

    /** `recv_heartbeats`, once data came in: only messages that start like a heartbeat count. */
    method ReceiveHeartbeat(buffer: string, ip: string, now: int)
      requires Valid()
      modifies this, nodes
      ensures Valid()
      ensures Contents() == if PREFIX <= CStr(buffer) then Touch(old(Contents()), ip, now) else old(Contents())
    {
      if PREFIX <= CStr(buffer) {
        UpdateNodeList(ip, now);
      }
    }
  }

  // ---- what the operations keep ----

  ghost predicate Absent(s: seq<Peer>, ip: string) {
    forall p :: p in s ==> p.ip != ip
  }

  /** Filtering keeps exactly the fresh peers, and repeats nothing. */
  lemma {:induction false} FreshIs(s: seq<Peer>, now: int)
    ensures forall p :: p in Fresh(s, now) <==> p in s && now - p.last <= TIMEOUT
    ensures Distinct(s) ==> Distinct(Fresh(s, now))
  {
    if s != [] {
      FreshIs(s[1..], now);
      var g := Fresh(s[1..], now);
      if Distinct(s) {
        assert forall i :: 0 <= i < |g| ==> g[i] in s[1..];
      }
    }
  }

  /** Filtering goes peer by peer, so that what stays keeps its order. */
  lemma {:induction false} FreshInOrder(s: seq<Peer>, t: seq<Peer>, now: int)
    ensures Fresh(s + t, now) == Fresh(s, now) + Fresh(t, now)
  {
    hide Fresh;
    if s == [] {
      FreshOfNothing(now);
      assert s + t == t;
    } else {
      FreshInOrder(s[1..], t, now);
      FreshHead([], s, now);
      FreshHead([], s + t, now);
      assert (s + t)[1..] == s[1..] + t;
      assert forall r: seq<Peer> :: [] + r == r;
    }
  }

  lemma {:induction false} FreshOne(p: Peer, now: int)
    ensures Fresh([p], now) == if IsFresh(p, now) then [p] else []
  {
    assert [p][1..] == [];
  }

  lemma {:induction false} SamePeer(s: seq<Peer>, p: Peer, q: Peer)
    requires Distinct(s) && p in s && q in s && p.ip == q.ip
    ensures p == q
  {
  }

  /** A heartbeat is recorded unless its sender is new and the table is full; other peers
      stay as they are. */
  lemma {:induction false} TouchIs(s: seq<Peer>, ip: string, now: int)
    requires Distinct(s)
    ensures Distinct(Touch(s, ip, now))
    ensures Absent(s, ip) && |s| >= CAPACITY ==> Touch(s, ip, now) == s
    ensures !Absent(s, ip) || |s| < CAPACITY ==> Peer(ip, now) in Touch(s, ip, now)
    ensures forall p: Peer :: p.ip != ip ==> (p in Touch(s, ip, now) <==> p in s)
  {
    var n := Position(s, ip);
    var t := Touch(s, ip, now);
    assert n < |s| ==> s[n] in s;
    if n < |s| || |s| < CAPACITY {
      assert t[n] == Peer(ip, now);
      assert forall i :: 0 <= i < |s| && i != n ==> t[i] == s[i];
    }
  }

  /** A known peer keeps its place and a new one comes last. */
  lemma {:induction false} TouchPlaces(s: seq<Peer>, ip: string, now: int)
    ensures Absent(s, ip) ==> Touch(s, ip, now) == if |s| < 1024 then s + [Peer(ip, now)] else s
    ensures Distinct(s) ==> forall i :: 0 <= i < |s| && s[i].ip == ip ==> Touch(s, ip, now) == s[i := Peer(ip, now)]
  {
  }

  // ---- runs ----

  datatype Event = Beat(ip: string, at: int) | Clean(at: int)

  /** The table after these events. */
  function Table(events: seq<Event>): seq<Peer> {
    if events == [] then []
    else
      var before := Table(events[..|events| - 1]);
      match events[|events| - 1]
      case Beat(ip, at) => Touch(before, ip, at)
      case Clean(at) => Fresh(before, at)
  }

  /** The time of the latest heartbeat of a peer, from the events alone. */
  function Latest(events: seq<Event>, ip: string): Option<int> {
    if events == [] then None
    else
      var e := events[|events| - 1];
      if e.Beat? && e.ip == ip then Some(e.at) else Latest(events[..|events| - 1], ip)
  }

  /** The last heartbeat of a peer is at `i`. */
  ghost predicate LastBeat(events: seq<Event>, ip: string, i: nat) {
    && i < |events| && events[i].Beat? && events[i].ip == ip
    && forall j :: i < j < |events| ==> !(events[j].Beat? && events[j].ip == ip)
  }

  lemma {:induction false} LatestIs(events: seq<Event>, ip: string)
    ensures Latest(events, ip).None? <==> forall i :: 0 <= i < |events| ==> !(events[i].Beat? && events[i].ip == ip)
    ensures forall i: nat :: LastBeat(events, ip, i) ==> Latest(events, ip) == Some(events[i].at)
  {
    if events != [] {
      var n := |events| - 1;
      var init := events[..n];
      LatestIs(init, ip);
      assert forall i :: 0 <= i < n ==> init[i] == events[i];
      forall i: nat | LastBeat(events, ip, i) && i < n ensures LastBeat(init, ip, i) {
      }
    }
  }

  /** The clock never goes back. */
  ghost predicate Timed(events: seq<Event>) {
    forall i, j :: 0 <= i < j < |events| ==> events[i].at <= events[j].at
  }

  /** No peer appears twice, each with the time of its latest heartbeat, and only peers whose
      latest heartbeat is too old are missing. */
  ghost predicate Tracks(s: seq<Peer>, events: seq<Event>) {
    && Distinct(s)
    && (forall p :: p in s ==> Latest(events, p.ip) == Some(p.last))
    && (forall ip {:trigger Latest(events, ip)} :: Absent(s, ip) && Latest(events, ip).Some? ==>
          events != [] && events[|events| - 1].at - Latest(events, ip).value > TIMEOUT)
  }

  /** The last event is a heartbeat that finds no room. */
  ghost predicate Dropped(events: seq<Event>) {
    events != [] &&
    var before, e := Table(events[..|events| - 1]), events[|events| - 1];
    e.Beat? && Absent(before, e.ip) && |before| >= CAPACITY
  }

  lemma {:induction false} AbsentBefore(before: seq<Peer>, s: seq<Peer>, other: string, ip: string)
    requires forall p: Peer :: p.ip != ip ==> (p in s <==> p in before)
    requires other != ip && Absent(s, other)
    ensures Absent(before, other)
  {
  }

  lemma {:induction false} TracksStep(events: seq<Event>)
    requires Timed(events) && events != []
    requires Tracks(Table(events[..|events| - 1]), events[..|events| - 1])
    ensures Tracks(Table(events), events) <==> !Dropped(events)
  {
    var init, e := events[..|events| - 1], events[|events| - 1];
    var before, s := Table(init), Table(events);
    match e
    case Beat(ip, at) =>
      TouchIs(before, ip, at);
      if Dropped(events) {
        assert Latest(events, ip) == Some(at);
      } else {
        forall p | p in s ensures Latest(events, p.ip) == Some(p.last) {
          if p.ip == ip {
            SamePeer(s, p, Peer(ip, at));
          }
        }
        forall other | Absent(s, other) && Latest(events, other).Some?
          ensures at - Latest(events, other).value > TIMEOUT
        {
          assert other != ip;
          AbsentBefore(before, s, other, ip);
        }
      }
    case Clean(at) =>
      FreshIs(before, at);
      forall other | Absent(s, other) && Latest(events, other).Some?
        ensures at - Latest(events, other).value > TIMEOUT
      {
        if !Absent(before, other) {
          var p :| p in before && p.ip == other;
          assert p !in s;
        }
      }
  }

  /** The table says the truth at every moment of a run. */
  ghost predicate AlwaysTracks(events: seq<Event>) {
    forall n :: 0 <= n <= |events| ==> Tracks(Table(events[..n]), events[..n])
  }

  ghost predicate NeverDropped(events: seq<Event>) {
    forall n :: 0 <= n <= |events| ==> !Dropped(events[..n])
  }

  lemma {:induction false} LastMoment(events: seq<Event>)
    requires events != []
    ensures var init := events[..|events| - 1];
      && (AlwaysTracks(events) <==> AlwaysTracks(init) && Tracks(Table(events), events))
      && (NeverDropped(events) <==> NeverDropped(init) && !Dropped(events))
      && (AlwaysTracks(init) ==> Tracks(Table(init), init))
  {
    hide Tracks, Dropped, Table;
    var init := events[..|events| - 1];
    assert events[..|events|] == events;
    assert init[..|init|] == init;
    assert forall n :: 0 <= n < |events| ==> events[..n] == init[..n];
  }

  /** It does so exactly when no heartbeat was dropped for lack of room. */
  lemma {:induction false} TableTracks(events: seq<Event>)
    requires Timed(events)
    ensures AlwaysTracks(events) <==> NeverDropped(events)
  {
    if events == [] {
      assert events[..0] == [];
    } else {
      hide Tracks, Dropped, Table, AlwaysTracks, NeverDropped;
      TableTracks(events[..|events| - 1]);
      LastMoment(events);
      if AlwaysTracks(events[..|events| - 1]) {
        TracksStep(events);
      }
    }
  }

  function Senders(events: seq<Event>): set<string> {
    set e | e in events && e.Beat? :: e.ip
  }

  function Ips(s: seq<Peer>): set<string> {
    set p | p in s :: p.ip
  }

  lemma {:induction false} DistinctCount(s: seq<Peer>)
    requires Distinct(s)
    ensures |Ips(s)| == |s|
  {
    if s != [] {
      var n := |s| - 1;
      DistinctCount(s[..n]);
      assert Ips(s) == Ips(s[..n]) + {s[n].ip};
      assert s[n].ip !in Ips(s[..n]);
    }
  }

  lemma {:induction false} TableFromSenders(events: seq<Event>)
    ensures Distinct(Table(events)) && Ips(Table(events)) <= Senders(events)
  {
    if events != [] {
      var init, e := events[..|events| - 1], events[|events| - 1];
      TableFromSenders(init);
      assert e in events && forall x :: x in init ==> x in events;
      assert Senders(init) <= Senders(events);
      match e
      case Beat(ip, at) => TouchIs(Table(init), ip, at);
      case Clean(at) =>
        FreshIs(Table(init), at);
        assert Ips(Table(events)) <= Ips(Table(init));
    }
  }

  lemma {:induction false} SubsetSmaller(a: set<string>, b: set<string>, x: string)
    requires a <= b && x in b && x !in a
    ensures |a| < |b|
  {
    assert b == a + (b - a);
    assert x in b - a;
  }

  /** With no more distinct senders than places nothing is ever dropped. */
  lemma {:induction false} FewSendersFit(events: seq<Event>)
    requires |Senders(events)| <= CAPACITY
    ensures NeverDropped(events)
  {
    forall n | 0 <= n <= |events| && events[..n] != [] ensures !Dropped(events[..n]) {
      var part := events[..n];
      var init, e := part[..n - 1], part[n - 1];
      TableFromSenders(init);
      DistinctCount(Table(init));
      if e.Beat? && Absent(Table(init), e.ip) {
        assert e in events && forall x :: x in init ==> x in events;
        SubsetSmaller(Ips(Table(init)), Senders(events), e.ip);
      }
    }
  }

  /** Right after a cleanup, if no heartbeat found the table full, a peer is in the table
      exactly if its latest heartbeat is at most 15 seconds old, with the time of that
      heartbeat. */
  lemma {:induction false} CleanupIsExact(events: seq<Event>, now: int, ip: string)
    requires Timed(events + [Clean(now)]) && NeverDropped(events)
    ensures var s := Table(events + [Clean(now)]);
      && Distinct(s)
      && (!Absent(s, ip) <==> Latest(events, ip).Some? && now - Latest(events, ip).value <= TIMEOUT)
      && (!Absent(s, ip) ==> Peer(ip, Latest(events, ip).value) in s)
  {
    var all := events + [Clean(now)];
    assert all[..|events|] == events;
    assert Timed(events);
    TableTracks(events);
    assert events[..|events|] == events;
    assert Tracks(Table(events), events);
    FreshIs(Table(events), now);
    assert Table(all) == Fresh(Table(events), now);
    if !Absent(Table(events), ip) {
      var p :| p in Table(events) && p.ip == ip;
      assert Latest(events, ip) == Some(p.last);
    }
    if events != [] {
      assert all[|events| - 1].at <= all[|events|].at;
    }
  }

  /** So it is when there are no more senders than places. */
  lemma {:induction false} CleanupOfFewSenders(events: seq<Event>, now: int, ip: string)
    requires Timed(events + [Clean(now)]) && |Senders(events)| <= CAPACITY
    ensures var s := Table(events + [Clean(now)]);
      && Distinct(s)
      && (!Absent(s, ip) <==> Latest(events, ip).Some? && now - Latest(events, ip).value <= TIMEOUT)
      && (!Absent(s, ip) ==> Peer(ip, Latest(events, ip).value) in s)
  {
    FewSendersFit(events);
    CleanupIsExact(events, now, ip);
  }
}
