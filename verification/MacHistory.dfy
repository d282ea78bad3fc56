/** The poll of the link: what each line of the driver's answer does to the link state,
    and the three most recent access points, which are kept in the configuration file. */
module MacHistory {
  import opened CText
  import opened Options
  import opened ConfigLine
  import opened ConfigText
  import opened ConfigWrite
  import opened CNumbers
  import ConfigPromises
  import opened ConfigFile

  const MAC_SIZE: nat := 18      // bytes of one address buffer
  const CHANNEL := "CHANNEL"
  const KEY0 := "AUTO_JOIN_NET_MAC0"
  const KEY1 := "AUTO_JOIN_NET_MAC1"
  const KEY2 := "AUTO_JOIN_NET_MAC2"

  // ---- history ----

  /** The entries that differ from the one before them, `prev` being before the first. */
  function Changes(prev: string, s: seq<string>): seq<string>
    decreases s
  {
    if s == [] then []
    else (if s[0] == prev then [] else [s[0]]) + Changes(s[0], s[1..])
  }

  /** The newest three of a history that runs from old to new, newest first. */
  function NewestThree(h: seq<string>): seq<string>
    requires |h| >= 3
  {
    [h[|h| - 1], h[|h| - 2], h[|h| - 3]]
  }

  /** The slots that follow from the initial ones and the captured addresses. */
  function SlotsOf(initial: seq<string>, captures: seq<string>): seq<string>
    requires |initial| == 3
  {
    NewestThree([initial[2], initial[1], initial[0]] + Changes(initial[0], captures))
  }

  lemma {:induction false} ChangesSplit(prev: string, s: seq<string>)
    requires s != []
    ensures Changes(prev, s) == (if s[0] == prev then [] else [s[0]]) + Changes(s[0], s[1..])
  {
  }

  lemma {:induction false} ChangesAppend(prev: string, s: seq<string>, x: string)
    ensures var last := if s == [] then prev else s[|s| - 1];
      Changes(prev, s + [x]) == Changes(prev, s) + if x == last then [] else [x]
    decreases s
  {
    if s == [] {
      assert s + [x] == [x] && [x][1..] == [];
    } else {
      ChangesAppend(s[0], s[1..], x);
      ChangesSplit(prev, s);
      ChangesSplit(prev, s + [x]);
      assert (s + [x])[1..] == s[1..] + [x];
    }
  }

  /** The newest change is the newest entry. */
  lemma {:induction false} ChangesEnd(prev: string, s: seq<string>)
    ensures Changes(prev, s) == [] ==> s == [] || s[|s| - 1] == prev
    ensures Changes(prev, s) != [] ==> s != [] && Changes(prev, s)[|Changes(prev, s)| - 1] == s[|s| - 1]
    decreases s
  {
    if s != [] {
      ChangesEnd(s[0], s[1..]);
    }
  }

  /** The slots after one more address. */
  function Shift(slots: seq<string>, x: string): (r: seq<string>)
    requires |slots| == 3
    ensures |r| == 3
  {
    if x == slots[0] then slots else [x, slots[0], slots[1]]
  }

  /** One more address: if it is the newest already nothing moves, and otherwise all slots
      move one back and it is the first. */
  lemma {:induction false} SlotsAppend(initial: seq<string>, captures: seq<string>, x: string)
    requires |initial| == 3
    ensures SlotsOf(initial, captures + [x]) == Shift(SlotsOf(initial, captures), x)
  {
    ChangesAppend(initial[0], captures, x);
    ChangesEnd(initial[0], captures);
  }

  // ---- what is kept in the file ----

  /** An address as `sscanf` reads it, or none: no blanks, and it fits its buffer. */
  ghost predicate IsMac(m: string) {
    |m| < MAC_SIZE && NulFree(m) && forall i :: 0 <= i < |m| ==> !IsSpace(m[i])
  }

  /** A restart reads this into an empty buffer, whatever is on its stack. */
  ghost predicate Rereads(file: Option<string>, key: string, slot: string) {
    forall st :: GetResult(file, key, [], MAC_SIZE, st).1 == slot
  }

  /** A restart restores these slots. */
  ghost predicate Persisted(file: Option<string>, slots: seq<string>)
    requires |slots| == 3
  {
    Rereads(file, KEY0, slots[0]) && Rereads(file, KEY1, slots[1]) && Rereads(file, KEY2, slots[2])
  }

  lemma {:induction false} MacIsValue(m: string)
    requires IsMac(m)
    ensures ValidValue(m) && Trim(m) == m
  {
    TrimIs(m, 0, |m|);
    assert m[0..|m|] == m;
    assert forall i :: 0 <= i < |m| ==> m[i] != '\n' && m[i] != '\r';
  }

  lemma {:induction false} KeysAreKeys(key: string)
    requires key in {KEY0, KEY1, KEY2}
    ensures ValidKey(key) && NulFree(key) && Trimmed(key)
  {
    assert |KEY0| == 18 && |KEY1| == 18 && |KEY2| == 18;
  }

  lemma {:induction false} OneWrite(text: string, key: string, m: string)
    requires Clean(text) && IsMac(m) && key in {KEY0, KEY1, KEY2}
    ensures Clean(SetText(text, key, m)) && StoreOf(SetText(text, key, m)) == StoreOf(text)[key := m]
  {
    hide SetText, StoreOf, Trim;
    MacIsValue(m);
    KeysAreKeys(key);
    CleanRewritable(text, key, m);
    SetTextIsUpdate(text, key, m);
    LinesOfSetText(text, key, m);
  }

  /** The three writes as one map update. */
  lemma {:induction false} ThreeWrites(text: string, a: string, b: string, c: string)
    requires Clean(text) && IsMac(a) && IsMac(b) && IsMac(c)
    ensures var t := SetText(SetText(SetText(text, KEY0, a), KEY1, b), KEY2, c);
      Clean(t) && StoreOf(t) == StoreOf(text)[KEY0 := a][KEY1 := b][KEY2 := c]
  {
    hide SetText, StoreOf, Clean, Trim;
    MacIsValue(a);
    MacIsValue(b);
    MacIsValue(c);
    OneWrite(text, KEY0, a);
    OneWrite(SetText(text, KEY0, a), KEY1, b);
    OneWrite(SetText(SetText(text, KEY0, a), KEY1, b), KEY2, c);
  }

  lemma {:induction false} KeysDiffer()
    ensures KEY0 != KEY1 && KEY0 != KEY2 && KEY1 != KEY2
  {
    assert KEY0[17] == '0' && KEY1[17] == '1' && KEY2[17] == '2';
  }

  lemma {:induction false} WritesPersist(text: string, a: string, b: string, c: string)
    requires Clean(text) && IsMac(a) && IsMac(b) && IsMac(c)
    ensures Persisted(Some(SetText(SetText(SetText(text, KEY0, a), KEY1, b), KEY2, c)), [a, b, c])
  {
    hide SetText, StoreOf, Clean, Trim;
    ThreeWrites(text, a, b, c);
    KeysAreKeys(KEY0);
    KeysAreKeys(KEY1);
    KeysAreKeys(KEY2);
    KeysDiffer();
  }

  lemma {:induction false} OtherReadsStay(live: Option<string>, after: string, key: string, k: string, slot: string)
    requires k != key && StoreOf([]) == map[]
    requires k in StoreOf(after) <==> k in StoreOf(TextOf(live))
    requires k in StoreOf(after) ==> StoreOf(after)[k] == StoreOf(TextOf(live))[k]
    ensures Rereads(live, k, slot) <==> Rereads(Some(after), k, slot)
  {
    hide StoreOf;
    assert forall st :: GetResult(live, k, [], MAC_SIZE, st).1 == GetResult(Some(after), k, [], MAC_SIZE, st).1;
  }

  /** Setting any other key disturbs nothing, found or not. */
  lemma {:induction false} OtherKeysKeepSlots(live: Option<string>, key: string, value: string, st: Stack, slots: seq<string>)
    requires Clean(TextOf(live)) && Arguments(key, value) && Trimmed(key) && key !in {KEY0, KEY1, KEY2} && |slots| == 3
    ensures var after := Written(TextOf(live), key, value, st);
      Clean(after) && (Persisted(live, slots) <==> Persisted(Some(after), slots))
  {
    hide Written, Trim, Lines, Store;
    var text := TextOf(live);
    CleanRewritable(text, key, value);
    LinesOfWritten(text, key, value, st);
    SetIsUpdate(text, key, value, st);
    NothingStored();
    OtherReadsStay(live, Written(text, key, value, st), key, KEY0, slots[0]);
    OtherReadsStay(live, Written(text, key, value, st), key, KEY1, slots[1]);
    OtherReadsStay(live, Written(text, key, value, st), key, KEY2, slots[2]);
  }

  // ---- the poll ----

  /** What a role line says of the link. */
  datatype Role = Role(state: int, users: int)

  /** One line of the driver's answer, as far as the code reads it: the link state and number
      of users if it is a role line, and whether it is a user line, with the address on it if
      one could be read. */
  datatype Line = Line(role: Option<Role>, user: bool, mac: Option<string>)

  const CONNECTED := 1

  /** What the polls keep from one to the next, and how often they signalled the joiner. */
  datatype View = View(lastUsers: int, addMac: bool, link: int, users: int, needRefresh: bool, mac: string,
                       slots: seq<string>, signals: nat)

  function SeeRole(v: View, role: Option<Role>): View {
    match role
    case None => v
    case Some(r) =>
      v.(needRefresh := v.lastUsers != 0 && v.lastUsers != r.users, lastUsers := r.users, link := r.state,
         users := r.users)
  }

  /** An address is taken from a user line, or the last one again if none can be read. */
  function SeeUser(terminal: bool, v: View, l: Line): View
    requires |v.slots| == 3
  {
    if l.user && terminal && v.addMac then
      var m := if l.mac.Some? then l.mac.value else v.mac;
      v.(mac := m, slots := Shift(v.slots, m), addMac := false)
    else v
  }

  function SeeLink(terminal: bool, v: View): View {
    if terminal && v.link != CONNECTED then v.(signals := v.signals + 1, addMac := true) else v
  }

  /** One turn of the loop in `get_view_users_info`. */
  function See(terminal: bool, v: View, l: Line): (r: View)
    requires |v.slots| == 3
    ensures |r.slots| == 3
  {
    SeeLink(terminal, SeeUser(terminal, SeeRole(v, l.role), l))
  }

  function SeeAll(terminal: bool, v: View, lines: seq<Line>): (r: View)
    requires |v.slots| == 3
    ensures |r.slots| == 3
  {
    if lines == [] then v else See(terminal, SeeAll(terminal, v, lines[..|lines| - 1]), lines[|lines| - 1])
  }

  // ---- what a run of lines amounts to ----

  /** The link state after these lines: that of the last role line. */
  function LinkAfter(link: int, lines: seq<Line>): int {
    if lines == [] then link
    else
      var l := lines[|lines| - 1];
      if l.role.Some? then l.role.value.state else LinkAfter(link, lines[..|lines| - 1])
  }

  /** The number of users after these lines: that of the last role line. */
  function UsersAfter(users: int, lines: seq<Line>): int {
    if lines == [] then users
    else
      var l := lines[|lines| - 1];
      if l.role.Some? then l.role.value.users else UsersAfter(users, lines[..|lines| - 1])
  }

  /** Whether a refresh is wanted after these lines: the last role line brought another
      number of users than the one known before it, which was not 0. */
  function RefreshAfter(users: int, before: bool, lines: seq<Line>): bool {
    if lines == [] then before
    else
      var init, l := lines[..|lines| - 1], lines[|lines| - 1];
      if l.role.Some? then UsersAfter(users, init) != 0 && UsersAfter(users, init) != l.role.value.users
      else RefreshAfter(users, before, init)
  }

  /** How many of these lines leave the link down. */
  function DownLines(link: int, lines: seq<Line>): nat {
    if lines == [] then 0
    else DownLines(link, lines[..|lines| - 1]) + if LinkAfter(link, lines) != CONNECTED then 1 else 0
  }

  ghost predicate LastRole(lines: seq<Line>, i: nat) {
    i < |lines| && lines[i].role.Some? && forall j :: i < j < |lines| ==> lines[j].role.None?
  }

  /** Link, users and refresh flag come from the last role line. */
  lemma {:induction false} LastRoleDecides(link: int, users: int, before: bool, lines: seq<Line>, i: nat)
    requires LastRole(lines, i)
    ensures var r, known := lines[i].role.value, UsersAfter(users, lines[..i]);
      && LinkAfter(link, lines) == r.state && UsersAfter(users, lines) == r.users
      && RefreshAfter(users, before, lines) == (known != 0 && known != r.users)
  {
    var n := |lines| - 1;
    if i < n {
      LastRoleDecides(link, users, before, lines[..n], i);
      assert lines[..n][..i] == lines[..i];
    }
  }

  /** They stay if there is none. */
  lemma {:induction false} NoRoleNoChange(link: int, users: int, before: bool, lines: seq<Line>)
    requires forall i :: 0 <= i < |lines| ==> lines[i].role.None?
    ensures LinkAfter(link, lines) == link && UsersAfter(users, lines) == users && RefreshAfter(users, before, lines) == before
  {
    if lines != [] {
      NoRoleNoChange(link, users, before, lines[..|lines| - 1]);
    }
  }

  /** No user line from `i` up to `j`. */
  ghost predicate NoUsers(lines: seq<Line>, i: nat, j: nat)
    requires i <= j <= |lines|
  {
    forall x :: i <= x < j ==> !lines[x].user
  }

  ghost predicate DownAfter(link: int, lines: seq<Line>, j: nat)
    requires j < |lines|
  {
    LinkAfter(link, lines[..j + 1]) != CONNECTED
  }

  /** The link was down after line `j`, and no user was seen since. */
  ghost predicate DownSince(link: int, lines: seq<Line>, j: nat)
    requires j < |lines|
  {
    DownAfter(link, lines, j) && NoUsers(lines, j + 1, |lines|)
  }

  /** After these lines a terminal wants an address: it did before, and no user was seen, or
      the link was down and no user was seen since. */
  ghost predicate Wanted(link: int, before: bool, lines: seq<Line>) {
    || (before && NoUsers(lines, 0, |lines|))
    || exists j :: 0 <= j < |lines| && DownSince(link, lines, j)
  }

  /** Line `i` is a user line met while an address is wanted. The link is that before the
      lines: a role that the line itself reports changes it, but not the wish. */
  ghost predicate Taken(link: int, before: bool, lines: seq<Line>, i: nat)
    requires i < |lines|
  {
    lines[i].user && Wanted(link, before, lines[..i])
  }

  ghost function DownAfterLines(link: int, lines: seq<Line>): set<nat> {
    set i: nat | i < |lines| && DownAfter(link, lines, i)
  }

  /** The lines that leave the link down are counted one by one. */
  lemma {:induction false} DownLinesCount(link: int, lines: seq<Line>)
    ensures DownLines(link, lines) == |DownAfterLines(link, lines)|
  {
    hide LinkAfter;
    if lines != [] {
      var n := |lines| - 1;
      var init := lines[..n];
      DownLinesCount(link, init);
      forall i: nat | i < n ensures DownAfter(link, init, i) <==> DownAfter(link, lines, i) {
        assert init[..i + 1] == lines[..i + 1];
      }
      assert lines[..n + 1] == lines;
      assert DownAfterLines(link, lines) == DownAfterLines(link, init) + if LinkAfter(link, lines) != CONNECTED then {n} else {};
    }
  }

  /** What was read on the user lines met while an address was wanted. */
  ghost function Reads(link: int, before: bool, lines: seq<Line>): seq<Option<string>> {
    if lines == [] then []
    else
      var n := |lines| - 1;
      Reads(link, before, lines[..n]) + if Taken(link, before, lines, n) then [lines[n].mac] else []
  }

  /** The addresses taken: where none could be read, the one before again. */
  function Addresses(mac: string, seen: seq<Option<string>>): (r: seq<string>)
    ensures |r| == |seen|
  {
    if seen == [] then []
    else
      var n := |seen| - 1;
      var init := Addresses(mac, seen[..n]);
      init + [if seen[n].Some? then seen[n].value else if n == 0 then mac else init[n - 1]]
  }

  lemma {:induction false} TakenEarlier(link: int, before: bool, lines: seq<Line>, i: nat)
    requires i < |lines| - 1
    ensures Taken(link, before, lines, i) <==> Taken(link, before, lines[..|lines| - 1], i)
  {
    assert lines[..|lines| - 1][..i] == lines[..i];
  }

  /** The line that is taken after `k` others gives what is read as number `k`. */
  lemma {:induction false} ReadsAt(link: int, before: bool, lines: seq<Line>, i: nat)
    requires i < |lines|
    ensures Reads(link, before, lines[..i]) <= Reads(link, before, lines)
    ensures Taken(link, before, lines, i) ==>
      var k := |Reads(link, before, lines[..i])|;
      k < |Reads(link, before, lines)| && Reads(link, before, lines)[k] == lines[i].mac
  {
    hide Taken;
    var n := |lines| - 1;
    if i < n {
      ReadsAt(link, before, lines[..n], i);
      assert lines[..n][..i] == lines[..i];
      TakenEarlier(link, before, lines, i);
    }
  }

  ghost function TakenLines(link: int, before: bool, lines: seq<Line>): set<nat> {
    set i: nat | i < |lines| && Taken(link, before, lines, i)
  }

  /** As much is read as lines are taken. */
  lemma {:induction false} ReadsCount(link: int, before: bool, lines: seq<Line>)
    ensures |Reads(link, before, lines)| == |TakenLines(link, before, lines)|
  {
    hide Taken;
    if lines != [] {
      var n := |lines| - 1;
      ReadsCount(link, before, lines[..n]);
      forall i: nat | i < n ensures Taken(link, before, lines, i) <==> Taken(link, before, lines[..n], i) {
        TakenEarlier(link, before, lines, i);
      }
      assert TakenLines(link, before, lines) ==
        TakenLines(link, before, lines[..n]) + if Taken(link, before, lines, n) then {n} else {};
    }
  }

  /** Each address is the one that was read, or the one before it, the first before all. */
  lemma {:induction false} AddressesAt(mac: string, seen: seq<Option<string>>, k: nat)
    requires k < |seen|
    ensures Addresses(mac, seen)[k] ==
      if seen[k].Some? then seen[k].value else if k == 0 then mac else Addresses(mac, seen)[k - 1]
  {
    if k < |seen| - 1 {
      AddressesAt(mac, seen[..|seen| - 1], k);
    }
  }

  /** The addresses that a run of lines captures, oldest first. */
  ghost function Captured(terminal: bool, v: View, lines: seq<Line>): seq<string> {
    if terminal then Addresses(v.mac, Reads(v.link, v.addMac, lines)) else []
  }

  lemma {:induction false} WantedStep(link: int, before: bool, lines: seq<Line>)
    requires lines != []
    ensures var n := |lines| - 1;
      Wanted(link, before, lines) <==>
        LinkAfter(link, lines) != CONNECTED || (!lines[n].user && Wanted(link, before, lines[..n]))
  {
    hide LinkAfter;
    var n := |lines| - 1;
    var init := lines[..n];
    assert lines[..n + 1] == lines;
    forall j | 0 <= j < n ensures DownSince(link, lines, j) <==> DownSince(link, init, j) && !lines[n].user {
      assert init[..j + 1] == lines[..j + 1];
      assert forall x :: 0 <= x < n ==> init[x] == lines[x];
    }
    if LinkAfter(link, lines) != CONNECTED {
      assert DownSince(link, lines, n);
    }
    if !lines[n].user && Wanted(link, before, init) && !(before && NoUsers(init, 0, n)) {
      var j :| 0 <= j < n && DownSince(link, init, j);
      assert DownSince(link, lines, j);
    }
  }

  lemma {:induction false} CapturedStep(terminal: bool, v: View, lines: seq<Line>)
    requires lines != []
    ensures var n := |lines| - 1;
      var before, l := Captured(terminal, v, lines[..n]), lines[n];
      var last := if before == [] then v.mac else before[|before| - 1];
      Captured(terminal, v, lines) ==
        if terminal && Taken(v.link, v.addMac, lines, n) then before + [if l.mac.Some? then l.mac.value else last]
        else before
  {
    hide Taken;
    var n := |lines| - 1;
    var seen := Reads(v.link, v.addMac, lines[..n]);
    assert (seen + [lines[n].mac])[..|seen|] == seen;
    assert seen + [] == seen;
  }

  lemma {:induction false} SeeFields(terminal: bool, v: View, l: Line)
    requires |v.slots| == 3
    ensures var r, take := See(terminal, v, l), terminal && l.user && v.addMac;
      && r.link == (if l.role.Some? then l.role.value.state else v.link)
      && r.lastUsers == (if l.role.Some? then l.role.value.users else v.lastUsers)
      && r.users == (if l.role.Some? then l.role.value.users else v.users)
      && r.needRefresh ==
        (if l.role.Some? then v.lastUsers != 0 && v.lastUsers != l.role.value.users else v.needRefresh)
      && r.signals == v.signals + (if terminal && r.link != CONNECTED then 1 else 0)
      && r.addMac == (if terminal then r.link != CONNECTED || (v.addMac && !l.user) else v.addMac)
      && r.mac == (if take && l.mac.Some? then l.mac.value else v.mac)
      && r.slots == (if take then Shift(v.slots, r.mac) else v.slots)
  {
    hide Shift;
  }

  lemma {:induction false} RunStep(terminal: bool, v: View, lines: seq<Line>)
    requires lines != []
    ensures var init, l := lines[..|lines| - 1], lines[|lines| - 1];
      var wanted, taken := Wanted(v.link, v.addMac, init), Captured(terminal, v, init);
      var last := if taken == [] then v.mac else taken[|taken| - 1];
      && (Wanted(v.link, v.addMac, lines) <==> LinkAfter(v.link, lines) != CONNECTED || (wanted && !l.user))
      && Captured(terminal, v, lines) ==
        if terminal && l.user && wanted then taken + [if l.mac.Some? then l.mac.value else last] else taken
  {
    hide Captured, Wanted;
    WantedStep(v.link, v.addMac, lines);
    CapturedStep(terminal, v, lines);
  }

  lemma {:induction false} NothingSeen(terminal: bool, v: View)
    requires |v.slots| == 3
    ensures Captured(terminal, v, []) == [] && SlotsOf(v.slots, []) == v.slots
    ensures Wanted(v.link, v.addMac, []) == v.addMac
  {
  }

  /** What any run of lines does: the link, the number of users and the signals follow the
      role lines; an address is wanted exactly when none was taken since the link was last
      down; and the slots are the newest three of the history of what was captured. */
  lemma {:induction false} SeeAllIs(terminal: bool, v: View, lines: seq<Line>)
    requires |v.slots| == 3
    ensures var r, taken := SeeAll(terminal, v, lines), Captured(terminal, v, lines);
      && r.link == LinkAfter(v.link, lines)
      && r.lastUsers == UsersAfter(v.lastUsers, lines) && r.users == UsersAfter(v.users, lines)
      && r.needRefresh == RefreshAfter(v.lastUsers, v.needRefresh, lines)
      && r.signals == v.signals + (if terminal then DownLines(v.link, lines) else 0)
      && r.addMac == (if terminal then Wanted(v.link, v.addMac, lines) else v.addMac)
      && r.mac == (if taken == [] then v.mac else taken[|taken| - 1])
      && r.slots == SlotsOf(v.slots, taken)
  {
    hide Captured, Wanted, Taken, SlotsOf, Shift, See;
    if lines == [] {
      NothingSeen(terminal, v);
    } else {
      var init, l := lines[..|lines| - 1], lines[|lines| - 1];
      SeeAllIs(terminal, v, init);
      RunStep(terminal, v, lines);
      var r := SeeAll(terminal, v, init);
      SeeFields(terminal, r, l);
      SlotsAppend(v.slots, Captured(terminal, v, init), if l.mac.Some? then l.mac.value else r.mac);
    }
  }

  /** Between two user lines whose addresses are taken the link was down: one outage yields
      one address. */
  lemma {:induction false} OnePerOutage(link: int, before: bool, lines: seq<Line>, i: nat, j: nat)
    requires i < j < |lines| && Taken(link, before, lines, i) && Taken(link, before, lines, j)
    ensures exists k :: i <= k < j && DownAfter(link, lines, k)
  {
    hide LinkAfter;
    var part := lines[..j];
    assert part[i].user;
    var k :| 0 <= k < j && DownSince(link, part, k);
    assert part[..k + 1] == lines[..k + 1] && DownAfter(link, lines, k);
  }

  /** Polls follow each other like lines. */
  lemma {:induction false} SeeAllConcat(terminal: bool, v: View, first: seq<Line>, second: seq<Line>)
    requires |v.slots| == 3
    ensures SeeAll(terminal, v, first + second) == SeeAll(terminal, SeeAll(terminal, v, first), second)
    decreases second
  {
    hide See;
    if second == [] {
      assert first + second == first;
    } else {
      var n := |second| - 1;
      SeeAllConcat(terminal, v, first, second[..n]);
      assert (first + second)[..|first| + n] == first + second[..n];
    }
  }

  /** How the file system answers the three writes that a line may lead to. */
  datatype Writes = Writes(first: Io, second: Io, third: Io)

  predicate AllSmooth(w: Writes) {
    Smooth(w.first) && Smooth(w.second) && Smooth(w.third)
  }

  lemma {:induction false} ChannelArguments(channel: int)
    requires INT_MIN <= channel <= INT_MAX
    ensures Arguments(CHANNEL, IntText(channel)) && Trimmed(CHANNEL) && CHANNEL !in {KEY0, KEY1, KEY2}
  {
    hide IntText;
    IntTextPlain(channel);
    assert |CHANNEL| == 7 && |KEY0| == 18 && |KEY1| == 18 && |KEY2| == 18;
  }

  lemma {:induction false} SmoothWrite(live: Option<string>, io: Io, key: string, value: string)
    requires Smooth(io) && |key| < MAX_KEY - 1
    ensures Cut(Intended(live, io, key, value), io.room) == SetText(TextOf(live), key, value)
  {
  }

  /** One round of the watcher: the driver's answer, the channel that it reads (0 for none), and
      how the file system answers the writes for each line and the one for the channel. */
  datatype Round = Round(lines: seq<Line>, io: nat -> Writes, channel: int, channelIo: Io)

  ghost predicate ProperLines(lines: seq<Line>) {
    forall i :: 0 <= i < |lines| && lines[i].mac.Some? ==> IsMac(lines[i].mac.value)
  }

  ghost predicate ProperRound(r: Round) {
    ProperLines(r.lines) && INT_MIN <= r.channel <= INT_MAX
  }

  predicate SmoothLines(lines: seq<Line>, io: nat -> Writes) {
    forall i :: 0 <= i < |lines| ==> AllSmooth(io(i))
  }

  predicate SmoothRound(r: Round) {
    SmoothLines(r.lines, r.io) && Smooth(r.channelIo)
  }

  function Flatten(rounds: seq<Round>): seq<Line> {
    if rounds == [] then [] else Flatten(rounds[..|rounds| - 1]) + rounds[|rounds| - 1].lines
  }

  /** The channel after these rounds: the last one that could be read. */
  function ChannelAfter(channel: int, rounds: seq<Round>): int {
    if rounds == [] then channel
    else
      var r := rounds[|rounds| - 1];
      if r.channel != 0 then r.channel else ChannelAfter(channel, rounds[..|rounds| - 1])
  }

  // ---- what the rounds leave in the file's map ----

  function WithSlots(m: map<string, string>, slots: seq<string>): map<string, string>
    requires |slots| == 3
  {
    m[KEY0 := slots[0]][KEY1 := slots[1]][KEY2 := slots[2]]
  }

  /** Some line moved the slots. */
  function Moved(terminal: bool, v: View, lines: seq<Line>): bool
    requires |v.slots| == 3
  {
    lines != [] &&
    var before := SeeAll(terminal, v, lines[..|lines| - 1]);
    (Moved(terminal, v, lines[..|lines| - 1]) || See(terminal, before, lines[|lines| - 1]).slots != before.slots)
  }

  /** What one line adds. */
  lemma {:induction false} OneMoreLine(m: map<string, string>, terminal: bool, v: View, lines: seq<Line>, i: nat)
    requires |v.slots| == 3 && i < |lines|
    ensures var before, after := SeeAll(terminal, v, lines[..i]), SeeAll(terminal, v, lines[..i + 1]);
      && after == See(terminal, before, lines[i])
      && (Moved(terminal, v, lines[..i + 1]) <==> Moved(terminal, v, lines[..i]) || after.slots != before.slots)
      && WithSlots(WithSlots(m, before.slots), after.slots) == WithSlots(m, after.slots)
  {
    hide See;
    assert lines[..i + 1][..i] == lines[..i];
  }

  lemma {:induction false} MovedConcat(terminal: bool, v: View, first: seq<Line>, second: seq<Line>)
    requires |v.slots| == 3
    ensures Moved(terminal, v, first + second) <==> Moved(terminal, v, first) || Moved(terminal, SeeAll(terminal, v, first), second)
    decreases second
  {
    hide See;
    if second == [] {
      assert first + second == first;
    } else {
      var n := |second| - 1;
      MovedConcat(terminal, v, first, second[..n]);
      SeeAllConcat(terminal, v, first, second[..n]);
      assert (first + second)[..|first| + n] == first + second[..n];
    }
  }

  lemma {:induction false} NothingMoved(terminal: bool, v: View)
    requires |v.slots| == 3
    ensures SeeAll(terminal, v, []) == v && !Moved(terminal, v, [])
  {
  }

  lemma {:induction false} LastLineCounts(link: int, lines: seq<Line>)
    ensures lines != [] && LinkAfter(link, lines) != CONNECTED ==> DownLines(link, lines) > 0
  {
  }

  lemma {:induction false} StillUnlessMoved(terminal: bool, v: View, lines: seq<Line>)
    requires |v.slots| == 3 && !Moved(terminal, v, lines)
    ensures SeeAll(terminal, v, lines).slots == v.slots
  {
    hide See;
    if lines != [] {
      StillUnlessMoved(terminal, v, lines[..|lines| - 1]);
    }
  }

  /** The first slot is the newest address. */
  lemma {:induction false} NewestIs(initial: seq<string>, captures: seq<string>)
    requires |initial| == 3
    ensures SlotsOf(initial, captures)[0] == if captures == [] then initial[0] else captures[|captures| - 1]
  {
    ChangesEnd(initial[0], captures);
  }

  /** Some line moved the slots exactly if an address was captured that was not the newest. */
  lemma {:induction false} MovedIs(terminal: bool, v: View, lines: seq<Line>)
    requires |v.slots| == 3
    ensures Moved(terminal, v, lines) <==> Changes(v.slots[0], Captured(terminal, v, lines)) != []
  {
    hide Captured, Wanted, Taken, SlotsOf, See;
    if lines == [] {
      NothingSeen(terminal, v);
    } else {
      var init, l := lines[..|lines| - 1], lines[|lines| - 1];
      MovedIs(terminal, v, init);
      SeeAllIs(terminal, v, init);
      RunStep(terminal, v, lines);
      var r := SeeAll(terminal, v, init);
      SeeFields(terminal, r, l);
      var taken := Captured(terminal, v, init);
      var m := if l.mac.Some? then l.mac.value else r.mac;
      NewestIs(v.slots, taken);
      ChangesAppend(v.slots[0], taken, m);
    }
  }

  /** Some round brought a new channel. */
  function ChannelMoved(channel: int, rounds: seq<Round>): bool {
    rounds != [] &&
    var init, reading := rounds[..|rounds| - 1], rounds[|rounds| - 1].channel;
    (ChannelMoved(channel, init) || (reading != 0 && reading != ChannelAfter(channel, init)))
  }

  lemma {:induction false} SameUnlessMoved(channel: int, rounds: seq<Round>)
    requires !ChannelMoved(channel, rounds)
    ensures ChannelAfter(channel, rounds) == channel
  {
    if rounds != [] {
      SameUnlessMoved(channel, rounds[..|rounds| - 1]);
    }
  }

  /** The map with the slots, if they moved, and the channel, if it did. */
  function StoreWith(m: map<string, string>, moved: bool, slots: seq<string>, noted: bool, channel: int): map<string, string>
    requires |slots| == 3
  {
    var s := if moved then WithSlots(m, slots) else m;
    if noted then s[CHANNEL := IntText(channel)] else s
  }

  lemma {:induction false} StoreWithTwice(m: map<string, string>, moved: bool, slots: seq<string>, noted: bool, channel: int,
                                          again: bool, later: seq<string>, renoted: bool, newer: int)
    requires |slots| == 3 && |later| == 3
    requires (!again ==> later == slots) && (!renoted ==> newer == channel)
    ensures StoreWith(StoreWith(m, moved, slots, noted, channel), again, later, renoted, newer)
      == StoreWith(m, moved || again, later, noted || renoted, newer)
  {
    hide IntText;
    ChannelArguments(0);
  }

  lemma {:induction false} NoRounds(m: map<string, string>, terminal: bool, v: View, channel: int)
    requires |v.slots| == 3
    ensures SeeAll(terminal, v, Flatten([])) == v
    ensures StoreWith(m, Moved(terminal, v, Flatten([])), v.slots, ChannelMoved(channel, []), channel) == m
  {
  }

  /** What one round adds. */
  lemma {:induction false} OneMoreRound(m: map<string, string>, terminal: bool, v: View, channel: int, r: Round, moved: bool, noted: bool)
    requires |v.slots| == 3
    ensures var again, renoted := Moved(terminal, v, r.lines), r.channel != 0 && r.channel != channel;
      var later, newer := SeeAll(terminal, v, r.lines).slots, if r.channel != 0 then r.channel else channel;
      StoreWith(StoreWith(m, moved, v.slots, noted, channel), again, later, renoted, newer)
        == StoreWith(m, moved || again, later, noted || renoted, newer)
  {
    hide See, Moved, SeeAll, StoreWith;
    var again, renoted := Moved(terminal, v, r.lines), r.channel != 0 && r.channel != channel;
    if !again {
      StillUnlessMoved(terminal, v, r.lines);
    }
    StoreWithTwice(m, moved, v.slots, noted, channel, again, SeeAll(terminal, v, r.lines).slots, renoted,
                   if r.channel != 0 then r.channel else channel);
  }

  /** Setting the channel is an update of its key alone. */
  lemma {:induction false} ChannelStored(text: string, channel: int, st: Stack)
    requires Clean(text) && INT_MIN <= channel <= INT_MAX
    ensures StoreOf(Written(text, CHANNEL, IntText(channel), st)) == StoreOf(text)[CHANNEL := IntText(channel)]
  {
    hide IntText, Written, StoreOf;
    ChannelArguments(channel);
    CleanRewritable(text, CHANNEL, IntText(channel));
    SetIsUpdate(text, CHANNEL, IntText(channel), st);
    StrtolOfIntText(channel);
  }

  /** A restart comes up on the channel that is in the file. */
  lemma {:induction false} ChannelReread(live: Option<string>, channel: int, stale: string, was: int, st: Stack)
    requires INT_MIN <= channel <= INT_MAX && ValidValue(stale)
    requires live.Some? && CHANNEL in StoreOf(live.value) && StoreOf(live.value)[CHANNEL] == IntText(channel)
    ensures GetIntResult(live, CHANNEL, stale, was, st) == (SUCCESS, channel)
  {
    hide IntText, StoreOf, GetIntResult;
    ChannelArguments(channel);
    IntTextPlain(channel);
    ConfigPromises.FetchedFits(IntText(channel), MAX_VALUE, st);
    ConfigPromises.GetIntOfNumber(live, CHANNEL, channel, stale, was, st);
  }

  /** All other keys keep their values. */
  lemma {:induction false} OtherKeysKept(m: map<string, string>, moved: bool, slots: seq<string>, noted: bool, channel: int)
    requires |slots| == 3
    ensures var s := StoreWith(m, moved, slots, noted, channel);
      forall key :: key !in {KEY0, KEY1, KEY2, CHANNEL} ==> (key in s <==> key in m) && (key in s ==> s[key] == m[key])
  {
  }

  class Watcher {
    const terminal: bool          // node_type == SP_TNODE
    const config: Config
    const slots: array<string>    // auto_join_net_mac
    var channel: int
    var lastUsers: int
    var addMac: bool
    var link: int
    var users: int
    var needRefresh: bool
    var mac: string
    ghost var signals: nat        // how often the joiner's condition was signalled

    ghost predicate Valid()
      reads this, slots
    {
      slots.Length == 3 && IsMac(mac) && IsMac(slots[0]) && IsMac(slots[1]) && IsMac(slots[2])
    }

    ghost function Now(): (v: View)
      requires slots.Length == 3
      reads this, slots
      ensures |v.slots| == 3
    {
      View(lastUsers, addMac, link, users, needRefresh, mac, slots[..], signals)
    }

    /** The map that the file stands for. */
    ghost function Stored(): map<string, string>
      reads this, config
    {
      StoreOf(TextOf(config.disk.live))
    }

    /** The file is a clean text file. */
    ghost predicate FileClean()
      reads this, config
    {
      Clean(TextOf(config.disk.live))
    }

    /** The file is a clean text file, and a restart would find the slots in it. */
    ghost predicate Saved()
      requires slots.Length == 3
      reads this, slots, config
    {
      FileClean() && Persisted(config.disk.live, slots[..])
    }

    constructor (terminal: bool, config: Config, first: seq<string>)
      requires |first| == 3 && IsMac(first[0]) && IsMac(first[1]) && IsMac(first[2])
      ensures Valid() && fresh(slots) && this.config == config && this.terminal == terminal
      ensures Now() == View(0, true, 0, 0, false, [], first, 0) && channel == 0
    {
      this.terminal, this.config := terminal, config;
      slots := new string[3](i requires 0 <= i < 3 => first[i]);
      channel, lastUsers, addMac, link, users, needRefresh, mac, signals := 0, 0, true, 0, 0, false, [], 0;
    }

    /** Moves the slots back, puts the address first and writes all three to the file; the
        results of the writes are not looked at. */
    method Remember(w: Writes)
      requires Valid()
      modifies slots, config
      ensures slots[..] == [mac, old(slots[0]), old(slots[1])]
      ensures old(FileClean()) && AllSmooth(w) ==> Saved() && Stored() == WithSlots(old(Stored()), slots[..])
    {
      hide SetText, StoreOf, Clean, Persisted, Intended, Whole, Tellable, Cut, SwitchesAt;
      slots[2] := slots[1];
      slots[1] := slots[0];
      slots[0] := mac;
      ghost var live := config.disk.live;
      KeysAreKeys(KEY0);
      KeysAreKeys(KEY1);
      KeysAreKeys(KEY2);
      MacIsValue(slots[0]);
      MacIsValue(slots[1]);
      MacIsValue(slots[2]);
      var ignored := config.ConfigSet(KEY0, slots[0], w.first);
      ghost var live1 := config.disk.live;
      ignored := config.ConfigSet(KEY1, slots[1], w.second);
      ghost var live2 := config.disk.live;
      ignored := config.ConfigSet(KEY2, slots[2], w.third);
      assert slots[..] == [slots[0], slots[1], slots[2]];
      if old(FileClean()) && AllSmooth(w) {
        SmoothWrite(live, w.first, KEY0, slots[0]);
        SmoothWrite(live1, w.second, KEY1, slots[1]);
        SmoothWrite(live2, w.third, KEY2, slots[2]);
        ThreeWrites(TextOf(live), slots[0], slots[1], slots[2]);
        WritesPersist(TextOf(live), slots[0], slots[1], slots[2]);
      }
    }

    /** A role line. */
    method ReadRole(r: Role)
      requires Valid()
      modifies `needRefresh, `lastUsers, `link, `users
      ensures Now() == SeeRole(old(Now()), Some(r))
    {
      needRefresh := lastUsers != 0 && lastUsers != r.users;
      lastUsers := r.users;
      link := r.state;
      users := r.users;
    }

    /** A user line seen while an address is wanted. */
    method Capture(read: Option<string>, w: Writes)
      requires Valid() && (read.Some? ==> IsMac(read.value))
      modifies slots, config, `mac, `addMac
      ensures Valid() && !addMac
      ensures mac == (if read.Some? then read.value else old(mac)) && slots[..] == Shift(old(slots[..]), mac)
      ensures old(FileClean()) && AllSmooth(w) ==>
        FileClean() && (old(Saved()) || slots[..] != old(slots[..]) ==> Saved())
        && Stored() == (if slots[..] != old(slots[..]) then WithSlots(old(Stored()), slots[..]) else old(Stored()))
    {
      hide Persisted, Clean, IsMac;
      if read.Some? {
        mac := read.value;
      }
      if mac != slots[0] {
        Remember(w);
      }
      addMac := false;
    }

    /** One turn of the loop in `get_view_users_info`. */
    method ProcessLine(l: Line, w: Writes)
      requires Valid() && (l.mac.Some? ==> IsMac(l.mac.value))
      modifies this, slots, config
      ensures Valid() && Now() == See(terminal, old(Now()), l) && channel == old(channel)
      ensures old(FileClean()) && AllSmooth(w) ==>
        FileClean() && (old(Saved()) || slots[..] != old(slots[..]) ==> Saved())
        && Stored() == (if slots[..] != old(slots[..]) then WithSlots(old(Stored()), slots[..]) else old(Stored()))
    {
      hide Persisted, Clean, IsMac, Shift;
      if l.role.Some? {
        ReadRole(l.role.value);
      }
      if l.user && terminal && addMac {
        Capture(l.mac, w);
      }
      if link != CONNECTED && terminal {
        signals := signals + 1;
        addMac := true;
      }
    }

    /** `get_view_users_info`: all lines of one answer. */
    method Poll(lines: seq<Line>, io: nat -> Writes)
      requires Valid() && ProperLines(lines)
      modifies this, slots, config
      ensures Valid() && Now() == SeeAll(terminal, old(Now()), lines) && channel == old(channel)
      ensures slots[..] == SlotsOf(old(slots[..]), Captured(terminal, old(Now()), lines))
      ensures signals == old(signals) + if terminal then DownLines(old(link), lines) else 0
      ensures terminal && lines != [] && link != CONNECTED ==> signals > old(signals)
      ensures old(FileClean()) && SmoothLines(lines, io) ==>
        FileClean() && (old(Saved()) || slots[..] != old(slots[..]) ==> Saved())
        && Stored() == (if Moved(terminal, old(Now()), lines) then WithSlots(old(Stored()), slots[..]) else old(Stored()))
    {
      hide Persisted, Clean, IsMac, See, SeeAll, Moved, WithSlots, StoreOf, SlotsOf, Captured, AllSmooth, DownLines, LinkAfter;
      NothingMoved(terminal, Now());
      for i := 0 to |lines|
        invariant Valid() && Now() == SeeAll(terminal, old(Now()), lines[..i]) && channel == old(channel)
        invariant old(FileClean()) && SmoothLines(lines[..i], io) ==>
          FileClean() && (old(Saved()) || slots[..] != old(slots[..]) ==> Saved())
          && Stored() == (if Moved(terminal, old(Now()), lines[..i]) then WithSlots(old(Stored()), slots[..]) else old(Stored()))
      {
        OneMoreLine(old(Stored()), terminal, old(Now()), lines, i);
        assert SmoothLines(lines[..i + 1], io) ==> SmoothLines(lines[..i], io) && AllSmooth(io(i));
        ProcessLine(lines[i], io(i));
      }
      assert lines[..|lines|] == lines;
      SeeAllIs(terminal, old(Now()), lines);
      LastLineCounts(old(link), lines);
    }

    /** The channel that was read, if it is new, is noted and written to the same file. */
    method NoteChannel(reading: int, io: Io)
      requires slots.Length == 3 && INT_MIN <= reading <= INT_MAX
      modifies `channel, config
      ensures channel == if reading != 0 then reading else old(channel)
      ensures old(FileClean()) && Smooth(io) ==>
        FileClean() && (old(Saved()) ==> Saved())
        && Stored() == (if reading != 0 && reading != old(channel) then old(Stored())[CHANNEL := IntText(reading)]
                        else old(Stored()))
    {
      hide Persisted, Clean, Written, SetText, Whole, Tellable, IntText;
      if reading != 0 && channel != reading {
        channel := reading;
        ghost var live := config.disk.live;
        ChannelArguments(reading);
        var ignored := config.ConfigSetInt(CHANNEL, channel, io);
        if old(FileClean()) && Smooth(io) {
          OtherKeysKeepSlots(live, CHANNEL, IntText(reading), io.stack, slots[..]);
          ChannelStored(TextOf(live), reading, io.stack);
        }
      }
    }

    /** `wtsl_core_get_splink_info`: the lines, and then the channel. */
    method GetSplinkInfo(r: Round)
      requires Valid() && ProperRound(r)
      modifies this, slots, config
      ensures Valid() && Now() == SeeAll(terminal, old(Now()), r.lines)
      ensures channel == if r.channel != 0 then r.channel else old(channel)
      ensures old(FileClean()) && SmoothRound(r) ==>
        FileClean() && (old(Saved()) || slots[..] != old(slots[..]) ==> Saved())
        && Stored() == StoreWith(old(Stored()), Moved(terminal, old(Now()), r.lines), slots[..],
                                 r.channel != 0 && r.channel != old(channel), channel)
    {
      hide Persisted, Clean, SlotsOf, Captured, SmoothLines;
      Poll(r.lines, r.io);
      NoteChannel(r.channel, r.channelIo);
    }

    /** The loop of `wtsl_core_splink_state_watcher`, for as many rounds as it makes: the slots
        are the newest three of the history of all that was captured. If all writes went
        through, a restart would read them, provided it would have before or they changed. */
    method Watch(rounds: seq<Round>)
      requires Valid() && forall k :: 0 <= k < |rounds| ==> ProperRound(rounds[k])
      modifies this, slots, config
      ensures Valid() && Now() == SeeAll(terminal, old(Now()), Flatten(rounds))
      ensures slots[..] == SlotsOf(old(slots[..]), Captured(terminal, old(Now()), Flatten(rounds)))
      ensures channel == ChannelAfter(old(channel), rounds)
      ensures old(FileClean()) && (forall k :: 0 <= k < |rounds| ==> SmoothRound(rounds[k])) ==>
        FileClean() && (old(Saved()) || slots[..] != old(slots[..]) ==> Saved())
        && Stored() == StoreWith(old(Stored()), Moved(terminal, old(Now()), Flatten(rounds)), slots[..],
                                 ChannelMoved(old(channel), rounds), channel)
      ensures old(FileClean()) && (forall k :: 0 <= k < |rounds| ==> SmoothRound(rounds[k])) ==>
        forall key :: key !in {KEY0, KEY1, KEY2, CHANNEL} ==>
          (key in Stored() <==> key in old(Stored())) && (key in Stored() ==> Stored()[key] == old(Stored())[key])
    {
      hide Persisted, Clean, IsMac, See, SlotsOf, Captured, SmoothRound, ProperRound, StoreWith, StoreOf;
      NoRounds(Stored(), terminal, Now(), channel);
      for n := 0 to |rounds|
        invariant Valid() && Now() == SeeAll(terminal, old(Now()), Flatten(rounds[..n]))
        invariant channel == ChannelAfter(old(channel), rounds[..n])
        invariant old(FileClean()) && (forall k :: 0 <= k < n ==> SmoothRound(rounds[k])) ==>
          FileClean() && (old(Saved()) || slots[..] != old(slots[..]) ==> Saved())
          && Stored() == StoreWith(old(Stored()), Moved(terminal, old(Now()), Flatten(rounds[..n])), slots[..],
                                   ChannelMoved(old(channel), rounds[..n]), channel)
      {
        assert rounds[..n + 1][..n] == rounds[..n];
        SeeAllConcat(terminal, old(Now()), Flatten(rounds[..n]), rounds[n].lines);
        MovedConcat(terminal, old(Now()), Flatten(rounds[..n]), rounds[n].lines);
        ghost var before, was := Now(), channel;
        GetSplinkInfo(rounds[n]);
        OneMoreRound(old(Stored()), terminal, before, was, rounds[n], Moved(terminal, old(Now()), Flatten(rounds[..n])),
                     ChannelMoved(old(channel), rounds[..n]));
      }
      assert rounds[..|rounds|] == rounds;
      SeeAllIs(terminal, old(Now()), Flatten(rounds));
      OtherKeysKept(old(Stored()), Moved(terminal, old(Now()), Flatten(rounds)), slots[..], ChannelMoved(old(channel), rounds), channel);
    }
  }
}
