/** Building frames into memory, sending them piece by piece, and the upload
    handshake with its retries. */
module Upload {
  import opened CText
  import opened Options
  import opened Lengths
  import opened Frames

  const INFO_KIND: bv32 := 0x8200_0000    // DATA_INFO_LOG_UPLAOD
  const LOG_KIND: bv32 := 0x8700_0000     // DATA_TYPE_LOG_UPLOAD
  const IDENT_FILE: byte := 0x02          // DATA_IDENTIFIER_FILE
  const IDENT_STRUCT: byte := 0x03        // DATA_IDENTIFIER_STRUCT
  const INFO_ACK := "wt_info_ACK"         // ACK_INFO_VERIFY
  const DATA_ACK := "wt_filedata_ACK"     // ACK_FILEDATA_VERIFY

  // ---- partial sends ----

  /** What `send` takes of `left` bytes when the network is ready for `ready`. */
  function Taken(ready: int, left: nat): int {
    if ready > left then left else ready
  }

  /** How many of `n` bytes go out, from the `k`-th call of `send` on, `sent` of them being out already. */
  function SentBy(n: nat, sends: nat -> int, k: nat, sent: nat): (total: nat)
    requires sent <= n
    ensures sent <= total <= n
    decreases n - sent
  {
    if sent == n || sends(k) <= 0 then sent
    else SentBy(n, sends, k + 1, sent + Taken(sends(k), n - sent))
  }

  predicate SendsWhole(n: nat, sends: nat -> int) {
    SentBy(n, sends, 0, 0) == n
  }

  /** The sum of the first `j` results. */
  function Ready(sends: nat -> int, j: nat): int {
    if j == 0 then 0 else Ready(sends, j - 1) + sends(j - 1)
  }

  ghost predicate AllPositive(sends: nat -> int, j: nat) {
    forall i :: 0 <= i < j ==> sends(i) > 0
  }

  /** Where the loop stops: all calls before were positive, and it is done or the next is not. */
  lemma {:induction false} SendRun(n: nat, sends: nat -> int, k: nat, sent: nat) returns (j: nat)
    requires sent <= n && AllPositive(sends, k)
    requires sent == if Ready(sends, k) < n then Ready(sends, k) else n
    requires k > 0 ==> Ready(sends, k - 1) < n
    ensures AllPositive(sends, j) && k <= j
    ensures SentBy(n, sends, k, sent) == if Ready(sends, j) < n then Ready(sends, j) else n
    ensures Ready(sends, j) < n ==> sends(j) <= 0
    ensures j > 0 ==> Ready(sends, j - 1) < n
    decreases n - sent
  {
    if sent == n || sends(k) <= 0 {
      j := k;
    } else {
      j := SendRun(n, sends, k + 1, sent + Taken(sends(k), n - sent));
    }
  }

  lemma {:induction false} ReadyGrows(sends: nat -> int, i: nat, j: nat)
    requires i <= j && AllPositive(sends, j)
    ensures Ready(sends, i) <= Ready(sends, j)
  {
    if i < j {
      ReadyGrows(sends, i, j - 1);
    }
  }

  /** A frame goes out whole exactly when some number of positive results in a row, from
      the first call on, adds up to its length. */
  lemma {:induction false} SendsWholeWhen(n: nat, sends: nat -> int)
    ensures SendsWhole(n, sends) <==> exists j: nat :: AllPositive(sends, j) && Ready(sends, j) >= n
  {
    var j := SendRun(n, sends, 0, 0);
    if exists i: nat :: AllPositive(sends, i) && Ready(sends, i) >= n {
      var i: nat :| AllPositive(sends, i) && Ready(sends, i) >= n;
      if i < j {
        ReadyGrows(sends, i, j);
      }
    }
  }

  /** What goes out is the sum of the results up to the first that is not positive, but no more
      than there is. */
  lemma {:induction false} SentByIs(n: nat, sends: nat -> int) returns (j: nat)
    ensures AllPositive(sends, j) && SentBy(n, sends, 0, 0) == if Ready(sends, j) < n then Ready(sends, j) else n
    ensures Ready(sends, j) < n ==> sends(j) <= 0
  {
    j := SendRun(n, sends, 0, 0);
  }

  // ---- what the network does, and what is seen of the upload ----

  datatype Reply = Silence | Broken | Received(bytes: string)

  /** How the machine and the network treat one attempt. */
  datatype Attempt = Attempt(connects: bool,
                             infoMemory: bool, infoSends: nat -> int, infoReply: Reply,
                             dataMemory: bool, dataSends: nat -> int, dataReply: Reply)

  datatype Stage = Info | Data

  datatype Event =
    | Connect(ok: bool)
    | Send(stage: Stage, bytes: seq<byte>, whole: bool)
    | Answer(stage: Stage, ok: bool)
    | Close

  predicate OccursAt(s: string, sub: string, i: nat) {
    i + |sub| <= |s| && s[i..i + |sub|] == sub
  }

  /** `strstr`. */
  predicate Contains(s: string, sub: string) {
    exists i: nat | i <= |s| :: OccursAt(s, sub, i)
  }

  /** `wait_for_ack`. */
  predicate Acknowledges(r: Reply, wanted: string) {
    r.Received? && r.bytes != [] && Contains(CStr(r.bytes), wanted)
  }

  /** A reply acknowledges exactly if what C reads of it has the wanted words somewhere. */
  lemma {:induction false} AcknowledgesIs(bytes: string, wanted: string)
    ensures Acknowledges(Received(bytes), wanted) <==>
      bytes != [] && exists p: string, q: string :: CStr(bytes) == p + wanted + q
    ensures !Acknowledges(Silence, wanted) && !Acknowledges(Broken, wanted)
  {
    hide CStr;
    var s := CStr(bytes);
    if i: nat :| i <= |s| && OccursAt(s, wanted, i) {
      assert s == s[..i] + wanted + s[i + |wanted|..];
    }
    if p: string, q: string :| s == p + wanted + q {
      assert OccursAt(s, wanted, |p|);
    }
  }

  /** What C reads of a reply has these words somewhere. */
  ghost predicate HasWords(r: Reply, wanted: string) {
    r.Received? && r.bytes != [] && exists p: string, q: string :: CStr(r.bytes) == p + wanted + q
  }

  /** Positive results in a row from the first call on add up to this length. */
  ghost predicate AddsUp(sends: nat -> int, n: nat) {
    exists j: nat :: AllPositive(sends, j) && Ready(sends, j) >= n
  }

  /** Data together with its `size_t` length. */
  datatype Payload = Payload(length: bv64, data: seq<byte>)

  predicate Proper(p: Payload) {
    Size(p.length) == |p.data|
  }

  /** The information frame of `size` bytes gets there and is acknowledged. */
  predicate InfoGoesThrough(a: Attempt, size: nat) {
    a.connects && a.infoMemory && SendsWhole(size, a.infoSends) && Acknowledges(a.infoReply, INFO_ACK)
  }

  predicate DataGoesThrough(a: Attempt, size: nat) {
    a.dataMemory && SendsWhole(size, a.dataSends) && Acknowledges(a.dataReply, DATA_ACK)
  }

  /** Everything goes right in this attempt. */
  predicate Succeeds(a: Attempt, info: Payload, log: Payload) {
    InfoGoesThrough(a, 26 + |info.data|) && DataGoesThrough(a, 26 + |log.data|)
  }

  /** No data goes out but right after the connection was made, the whole information frame
      was sent on it and its acknowledgement came back. */
  ghost predicate Orderly(t: seq<Event>) {
    forall i :: 0 <= i < |t| && t[i].Send? && t[i].stage == Data ==>
      3 <= i && t[i - 3] == Connect(true) && t[i - 2].Send? && t[i - 2].stage == Info && t[i - 2].whole
      && t[i - 1] == Answer(Info, true)
  }

  function Connects(t: seq<Event>): nat {
    if t == [] then 0 else Connects(t[..|t| - 1]) + if t[|t| - 1].Connect? then 1 else 0
  }

  lemma {:induction false} ConnectsConcat(t: seq<Event>, u: seq<Event>)
    ensures Connects(t + u) == Connects(t) + Connects(u)
  {
    if u == [] {
      assert t + u == t;
    } else {
      var n := |u| - 1;
      ConnectsConcat(t, u[..n]);
      assert (t + u)[..|t| + n] == t + u[..n];
    }
  }

  lemma {:induction false} NoConnects(t: seq<Event>)
    requires forall i :: 0 <= i < |t| ==> !t[i].Connect?
    ensures Connects(t) == 0
  {
    if t != [] {
      NoConnects(t[..|t| - 1]);
    }
  }

  lemma {:induction false} OneConnect(first: Event, rest: seq<Event>)
    requires first.Connect? && forall i :: 0 <= i < |rest| ==> !rest[i].Connect?
    ensures Connects([first] + rest) == 1
  {
    NoConnects(rest);
    ConnectsConcat([first], rest);
    NoConnects([]);
    assert [first][..0] == [];
  }

  lemma {:induction false} OrderlyConcat(t: seq<Event>, u: seq<Event>)
    requires Orderly(t) && Orderly(u)
    ensures Orderly(t + u)
  {
    var all := t + u;
    forall i | 0 <= i < |all| && all[i].Send? && all[i].stage == Data
      ensures 3 <= i && all[i - 3] == Connect(true) && all[i - 1] == Answer(Info, true)
      ensures all[i - 2].Send? && all[i - 2].stage == Info && all[i - 2].whole
    {
      if i < |t| {
        assert t[i] == all[i];
      } else {
        assert u[i - |t|] == all[i];
      }
    }
  }

  /** The events of an upload that goes through. */
  ghost predicate GoesThrough(t: seq<Event>, infoFrame: seq<byte>, dataFrame: seq<byte>) {
    |t| >= 6 && t[|t| - 6..] == [Connect(true), Send(Info, infoFrame, true), Answer(Info, true),
                                 Send(Data, dataFrame, true), Answer(Data, true), Close]
  }

  /** What is seen of sending a frame. */
  function SendEvents(stage: Stage, frame: seq<byte>, memory: bool, sends: nat -> int): seq<Event> {
    if !memory then [Close]
    else if SendsWhole(|frame|, sends) then [Send(stage, frame, true)]
    else [Send(stage, frame[..SentBy(|frame|, sends, 0, 0)], false), Close]
  }

  lemma {:induction false} SentIs(t: seq<Event>, stage: Stage, frame: seq<byte>, sends: nat -> int)
    ensures var wire, whole := frame[..SentBy(|frame|, sends, 0, 0)], SendsWhole(|frame|, sends);
      var sent := t + [Send(stage, wire, whole)];
      (if whole then sent else sent + [Close]) == t + SendEvents(stage, frame, true, sends)
  {
    assert frame[..|frame|] == frame;
  }

  lemma {:induction false} NoMemory(stage: Stage, frame: seq<byte>, sends: nat -> int)
    ensures SendEvents(stage, frame, false, sends) == [Close]
  {
  }

  /** What is seen of the information and its acknowledgement. */
  function InfoEvents(a: Attempt, frame: seq<byte>): seq<Event> {
    if !a.connects then [Connect(false)]
    else
      [Connect(true)] + SendEvents(Info, frame, a.infoMemory, a.infoSends)
      + if a.infoMemory && SendsWhole(|frame|, a.infoSends) then [Answer(Info, Acknowledges(a.infoReply, INFO_ACK))] else []
  }

  /** What is seen of the data and its acknowledgement. A connection whose acknowledgement
      fails is not closed. */
  function DataEvents(a: Attempt, frame: seq<byte>): seq<Event> {
    SendEvents(Data, frame, a.dataMemory, a.dataSends)
    + if !(a.dataMemory && SendsWhole(|frame|, a.dataSends)) then []
      else if Acknowledges(a.dataReply, DATA_ACK) then [Answer(Data, true), Close]
      else [Answer(Data, false)]
  }

  /** The steps of the information exchange add up. */
  lemma {:induction false} InfoAdds(t: seq<Event>, a: Attempt, frame: seq<byte>)
    ensures var sent := t + [Connect(true)] + SendEvents(Info, frame, a.infoMemory, a.infoSends);
      && (!a.connects ==> t + [Connect(a.connects)] == t + InfoEvents(a, frame))
      && (a.connects && !(a.infoMemory && SendsWhole(|frame|, a.infoSends)) ==> sent == t + InfoEvents(a, frame))
      && (a.connects && a.infoMemory && SendsWhole(|frame|, a.infoSends) ==>
            sent + [Answer(Info, Acknowledges(a.infoReply, INFO_ACK))] == t + InfoEvents(a, frame))
  {
    hide SendEvents, SendsWhole, Acknowledges;
  }

  lemma {:induction false} DataAdds(t: seq<Event>, a: Attempt, frame: seq<byte>)
    ensures var sent, ok := t + SendEvents(Data, frame, a.dataMemory, a.dataSends), Acknowledges(a.dataReply, DATA_ACK);
      && (!(a.dataMemory && SendsWhole(|frame|, a.dataSends)) ==> sent == t + DataEvents(a, frame))
      && (a.dataMemory && SendsWhole(|frame|, a.dataSends) ==>
            (sent + [Answer(Data, ok)]) + (if ok then [Close] else []) == t + DataEvents(a, frame))
  {
    hide SendEvents, SendsWhole, Acknowledges;
  }

  /** An attempt succeeds exactly if the connection is made, there is memory for both frames, both
      are sent whole, and both replies have the words that acknowledge them. */
  lemma {:induction false} SucceedsExactly(a: Attempt, info: Payload, log: Payload)
    ensures Succeeds(a, info, log) <==>
      && a.connects && a.infoMemory && a.dataMemory
      && AddsUp(a.infoSends, 26 + |info.data|) && HasWords(a.infoReply, "wt_info_ACK")
      && AddsUp(a.dataSends, 26 + |log.data|) && HasWords(a.dataReply, "wt_filedata_ACK")
  {
    hide SendsWhole, Acknowledges;
    SendsWholeWhen(26 + |info.data|, a.infoSends);
    SendsWholeWhen(26 + |log.data|, a.dataSends);
    AcknowledgesIs(if a.infoReply.Received? then a.infoReply.bytes else [], INFO_ACK);
    AcknowledgesIs(if a.dataReply.Received? then a.dataReply.bytes else [], DATA_ACK);
  }

  /** What is seen of an attempt with these frames. */
  function AttemptEvents(a: Attempt, infoFrame: seq<byte>, dataFrame: seq<byte>): seq<Event> {
    InfoEvents(a, infoFrame) + if InfoGoesThrough(a, |infoFrame|) then DataEvents(a, dataFrame) else []
  }

  /** Sending makes no connection, and it sends data only in its stage. */
  lemma {:induction false} SendEventsAre(stage: Stage, frame: seq<byte>, memory: bool, sends: nat -> int)
    ensures var t := SendEvents(stage, frame, memory, sends);
      && 0 < |t| <= 2
      && (forall i :: 0 <= i < |t| ==> !t[i].Connect?)
      && (forall i :: 0 <= i < |t| && t[i].Send? ==> i == 0 && t[i].stage == stage)
      && (memory && SendsWhole(|frame|, sends) ==> t == [Send(stage, frame, true)])
  {
    hide SendsWhole;
  }

  lemma {:induction false} AttemptConnectsOnce(a: Attempt, infoFrame: seq<byte>, dataFrame: seq<byte>)
    ensures Connects(AttemptEvents(a, infoFrame, dataFrame)) == 1
  {
    hide Connects, SendsWhole, Acknowledges, SendEvents;
    SendEventsAre(Info, infoFrame, a.infoMemory, a.infoSends);
    SendEventsAre(Data, dataFrame, a.dataMemory, a.dataSends);
    var t := AttemptEvents(a, infoFrame, dataFrame);
    assert t == [t[0]] + t[1..];
    OneConnect(t[0], t[1..]);
  }

  lemma {:induction false} AttemptOrderly(a: Attempt, infoFrame: seq<byte>, dataFrame: seq<byte>)
    ensures Orderly(AttemptEvents(a, infoFrame, dataFrame))
  {
    hide SendsWhole, Acknowledges, SendEvents;
    SendEventsAre(Info, infoFrame, a.infoMemory, a.infoSends);
    SendEventsAre(Data, dataFrame, a.dataMemory, a.dataSends);
    var t := AttemptEvents(a, infoFrame, dataFrame);
    forall i | 0 <= i < |t| && t[i].Send? && t[i].stage == Data ensures i == 3 && InfoGoesThrough(a, |infoFrame|) {
    }
  }

  lemma {:induction false} AttemptGoesThrough(t: seq<Event>, a: Attempt, infoFrame: seq<byte>, dataFrame: seq<byte>)
    requires InfoGoesThrough(a, |infoFrame|) && DataGoesThrough(a, |dataFrame|)
    ensures GoesThrough(t + AttemptEvents(a, infoFrame, dataFrame), infoFrame, dataFrame)
  {
    hide SendsWhole, Acknowledges, SendEvents;
    SendEventsAre(Info, infoFrame, a.infoMemory, a.infoSends);
    SendEventsAre(Data, dataFrame, a.dataMemory, a.dataSends);
    var e := AttemptEvents(a, infoFrame, dataFrame);
    assert |e| == 6 && (t + e)[|t|..] == e;
  }

  /** An attempt makes one connection, keeps the order, and goes through if all its steps do. */
  lemma {:induction false} AttemptIs(t: seq<Event>, a: Attempt, infoFrame: seq<byte>, dataFrame: seq<byte>)
    ensures var after := t + AttemptEvents(a, infoFrame, dataFrame);
      && Connects(after) == Connects(t) + 1
      && (Orderly(t) ==> Orderly(after))
      && (InfoGoesThrough(a, |infoFrame|) && DataGoesThrough(a, |dataFrame|) ==> GoesThrough(after, infoFrame, dataFrame))
  {
    hide Connects, Orderly, InfoGoesThrough, DataGoesThrough, GoesThrough, AttemptEvents;
    var seen := AttemptEvents(a, infoFrame, dataFrame);
    ConnectsConcat(t, seen);
    AttemptConnectsOnce(a, infoFrame, dataFrame);
    AttemptOrderly(a, infoFrame, dataFrame);
    if Orderly(t) {
      OrderlyConcat(t, seen);
    }
    if InfoGoesThrough(a, |infoFrame|) && DataGoesThrough(a, |dataFrame|) {
      AttemptGoesThrough(t, a, infoFrame, dataFrame);
    }
  }

  lemma {:induction false} SendEventsSeen(stage: Stage, frame: seq<byte>, memory: bool, sends: nat -> int, e: Event)
    ensures e in SendEvents(stage, frame, memory, sends) <==>
      || (memory && e == Send(stage, frame[..SentBy(|frame|, sends, 0, 0)], SendsWhole(|frame|, sends)))
      || (e == Close && !(memory && SendsWhole(|frame|, sends)))
  {
    assert frame[..|frame|] == frame;
  }

  /** What is seen of an attempt, event by event: each step is seen exactly if all before it went
      well, with as much of its frame as was sent; the connection is closed unless it never was
      made or an acknowledgement on it failed. */
  lemma {:induction false} AttemptSeen(a: Attempt, infoFrame: seq<byte>, dataFrame: seq<byte>, e: Event)
    ensures var t := AttemptEvents(a, infoFrame, dataFrame);
      var infoSent := a.connects && a.infoMemory && SendsWhole(|infoFrame|, a.infoSends);
      var dataSent := InfoGoesThrough(a, |infoFrame|) && a.dataMemory && SendsWhole(|dataFrame|, a.dataSends);
      e in t <==> match e
        case Connect(ok) => ok == a.connects
        case Send(Info, bytes, whole) =>
          && a.connects && a.infoMemory && whole == SendsWhole(|infoFrame|, a.infoSends)
          && bytes == infoFrame[..SentBy(|infoFrame|, a.infoSends, 0, 0)]
        case Send(Data, bytes, whole) =>
          && InfoGoesThrough(a, |infoFrame|) && a.dataMemory && whole == SendsWhole(|dataFrame|, a.dataSends)
          && bytes == dataFrame[..SentBy(|dataFrame|, a.dataSends, 0, 0)]
        case Answer(Info, ok) => infoSent && ok == Acknowledges(a.infoReply, INFO_ACK)
        case Answer(Data, ok) => dataSent && ok == Acknowledges(a.dataReply, DATA_ACK)
        case Close => a.connects && Answer(Info, false) !in t && Answer(Data, false) !in t
  {
    hide Acknowledges, SendEvents;
    SendEventsSeen(Info, infoFrame, a.infoMemory, a.infoSends, e);
    SendEventsSeen(Data, dataFrame, a.dataMemory, a.dataSends, e);
    SendEventsSeen(Info, infoFrame, a.infoMemory, a.infoSends, Answer(Info, false));
    SendEventsSeen(Data, dataFrame, a.dataMemory, a.dataSends, Answer(Info, false));
    SendEventsSeen(Info, infoFrame, a.infoMemory, a.infoSends, Answer(Data, false));
    SendEventsSeen(Data, dataFrame, a.dataMemory, a.dataSends, Answer(Data, false));
  }

  /** The two exchanges of an attempt add up. */
  lemma {:induction false} AttemptAdds(t: seq<Event>, a: Attempt, infoFrame: seq<byte>, dataFrame: seq<byte>)
    ensures var sent := t + InfoEvents(a, infoFrame);
      (if InfoGoesThrough(a, |infoFrame|) then sent + DataEvents(a, dataFrame) else sent)
        == t + AttemptEvents(a, infoFrame, dataFrame)
  {
    hide InfoEvents, DataEvents, InfoGoesThrough;
  }

  /** The frame number steps on, and wraps, when a frame is built. */
  function Stepped(n: bv16, built: bool): (next: bv16)
    ensures !built ==> next == n
  {
    if built then n + 1 else n
  }

  /** The frame number after an attempt. */
  function NumberAfter(n: bv16, a: Attempt, info: Payload): bv16 {
    Stepped(Stepped(n, a.connects && a.infoMemory), InfoGoesThrough(a, 26 + |info.data|) && a.dataMemory)
  }

  /** The frame number after the first `k` attempts. */
  function NumberAfterAll(n: bv16, attempts: nat -> Attempt, k: nat, info: Payload): bv16 {
    if k == 0 then n else NumberAfter(NumberAfterAll(n, attempts, k - 1, info), attempts(k - 1), info)
  }

  /** Where the fields of a message are in its frame. */
  lemma {:induction false} MessageBytes(m: Message)
    ensures var f := Encode(m);
      && |f| == 26 + |m.data|
      && f[2] == (m.number & 0xFF) as byte && f[3] == (m.number >> 8) as byte
      && f[4..8] == Bytes32(Pack(m.source)) && f[8..12] == Bytes32(Pack(m.target))
      && f[16..19] == Bytes24(m.length) && f[19] == m.ident && f[20..20 + |m.data|] == m.data
  {
    hide Encode, Pack, Bytes24, Bytes32, Head, Xor, Covered;
    FrameBytes(m);
    Layout(m);
  }

  lemma {:induction false} InfoKind(m: Message)
    requires m.kind == INFO_KIND
    ensures var f := Encode(m); f[12] == 0 && f[13] == 0 && f[14] == 0 && f[15] == 0x82
  {
    hide Encode, Xor, Covered;
    FrameBytes(m);
  }

  lemma {:induction false} LogKind(m: Message)
    requires m.kind == LOG_KIND
    ensures var f := Encode(m); f[12] == 0 && f[13] == 0 && f[14] == 0 && f[15] == 0x87
  {
    hide Encode, Xor, Covered;
    FrameBytes(m);
  }

  class Uploader {
    const source: Address
    const target: Address
    var number: bv16              // the static frame sequence number
    var events: seq<Event>

    constructor (source: Address, target: Address)
      ensures this.source == source && this.target == target && number == 1 && events == []
    {
      this.source, this.target := source, target;
      number, events := 1, [];
    }

    ghost function MessageOf(n: bv16, kind: bv32, ident: byte, p: Payload): Message {
      Message(n, source, target, kind, ident, p.length, p.data)
    }

    /** `calculate_checksum`. */
    method CalculateChecksum(data: array<byte>, length: nat) returns (checksum: bv16)
      requires length <= data.Length
      ensures checksum == Xor(data[..length]) as bv16
    {
      var x: byte := 0;
      for i := 0 to length
        invariant x == Xor(data[..i])
      {
        assert data[..i + 1][..i] == data[..i];
        x := x ^ data[i];
      }
      checksum := x as bv16;
    }

    /** `memcpy` to the next free place: what was written before stays. */
    method Append(frame: array<byte>, at: nat, bytes: seq<byte>) returns (next: nat)
      requires at + |bytes| <= frame.Length
      modifies frame
      ensures next == at + |bytes| && frame[..next] == old(frame[..at]) + bytes
    {
      for i := 0 to |bytes|
        invariant frame[..at] == old(frame[..at])
        invariant frame[at..at + i] == bytes[..i]
      {
        frame[at + i] := bytes[i];
        assert frame[at..at + i + 1] == frame[at..at + i] + [bytes[i]];
      }
      next := at + |bytes|;
      assert frame[..next] == frame[..at] + frame[at..next];
      assert bytes[..|bytes|] == bytes;
    }

    /** The fixed fields. */
    method WriteHead(frame: array<byte>, n: bv16, kind: bv32, ghost m: Message)
      requires frame.Length >= 16
      requires m.number == n && m.source == source && m.target == target && m.kind == kind
      modifies frame
      ensures frame[..16] == Head(m)
    {
      hide Pack, Bytes16, Bytes32;
      var ptr := Append(frame, 0, Bytes16(HEADER));
      ptr := Append(frame, ptr, Bytes16(n));
      ptr := Append(frame, ptr, Bytes32(Pack(source)));
      ptr := Append(frame, ptr, Bytes32(Pack(target)));
      ptr := Append(frame, ptr, Bytes32(kind));
    }

    /** Length, identifier, data, checksum and footer. */
    method WriteRest(frame: array<byte>, ident: byte, p: Payload, ghost m: Message)
      requires frame.Length == 26 + |p.data| && frame[..16] == Head(m)
      requires m.ident == ident && m.length == p.length && m.data == p.data
      modifies frame
      ensures frame[..] == Encode(m)
    {
      hide Head, Xor, Bytes16, Bytes24;
      var ptr := Append(frame, 16, Bytes24(p.length));
      ptr := Append(frame, ptr, [ident]);
      ptr := Append(frame, ptr, p.data);
      ptr := Append(frame, ptr, Bytes16(EXTENDED));
      assert frame[..ptr] == Covered(m);
      var sum := CalculateChecksum(frame, ptr);
      ptr := Append(frame, ptr, Bytes16(sum));
      ptr := Append(frame, ptr, Bytes16(FOOTER));
      assert frame[..] == frame[..ptr];
    }

    /** `build_log_upload_frame`: the frame of the message with the current number, which
        then steps on and wraps at 16 bits. Without data nothing happens. */
    method BuildFrame(p: Payload, kind: bv32, ident: byte, memory: bool) returns (code: int, frame: array?<byte>)
      requires Proper(p)
      modifies this`number
      ensures code == if p.data == [] || !memory then -1 else 0
      ensures code == -1 ==> number == old(number) && frame == null
      ensures code == 0 ==>
        (number == old(number) + 1 && frame != null && fresh(frame)
        && frame[..] == Encode(MessageOf(old(number), kind, ident, p)))
    {
      hide Head, Encode;
      if p.data == [] || !memory {
        return -1, null;
      }
      ghost var m := MessageOf(number, kind, ident, p);
      frame := new byte[26 + |p.data|];
      var n := number;
      number := number + 1;
      WriteHead(frame, n, kind, m);
      WriteRest(frame, ident, p, m);
      code := 0;
    }

    /** `send_frame_data`: `wire` is what reached the network, in order. */
    method SendFrameData(frame: array<byte>, sends: nat -> int) returns (code: int, wire: seq<byte>)
      ensures code == if SendsWhole(frame.Length, sends) then 0 else -1
      ensures wire == frame[..][..SentBy(frame.Length, sends, 0, 0)]
    {
      var total, calls := 0, 0;
      wire := [];
      while total < frame.Length
        invariant total <= frame.Length && wire == frame[..total]
        invariant SentBy(frame.Length, sends, calls, total) == SentBy(frame.Length, sends, 0, 0)
        decreases frame.Length - total
      {
        var sent := Taken(sends(calls), frame.Length - total);
        if sent <= 0 {
          return -1, wire;
        }
        wire := wire + frame[total..total + sent];
        total := total + sent;
        calls := calls + 1;
      }
      code := 0;
    }

    /** One event is seen. */
    method Note(e: Event)
      modifies this`events
      ensures events == old(events) + [e]
    {
      events := events + [e];
    }

    /** The message of a stage under a number. */
    ghost function StageMessage(n: bv16, stage: Stage, p: Payload): Message {
      if stage == Info then MessageOf(n, INFO_KIND, IDENT_STRUCT, p) else MessageOf(n, LOG_KIND, IDENT_FILE, p)
    }

    /** The frames of the two stages differ in kind and identifier alone; both have the number, the
        addresses, the length and the data in their places. */
    lemma {:induction false} StageBytes(n: bv16, stage: Stage, p: Payload)
      ensures var f := Encode(StageMessage(n, stage, p));
        && |f| == 26 + |p.data|
        && f[2] == (n & 0xFF) as byte && f[3] == (n >> 8) as byte
        && f[4..8] == Bytes32(Pack(source)) && f[8..12] == Bytes32(Pack(target))
        && f[12] == 0 && f[13] == 0 && f[14] == 0 && f[15] == (if stage == Info then 0x82 else 0x87)
        && f[16..19] == Bytes24(p.length) && f[19] == (if stage == Info then 3 else 2)
        && f[20..20 + |p.data|] == p.data
    {
      hide Encode, Pack, Bytes24, Bytes32;
      var m := StageMessage(n, stage, p);
      MessageBytes(m);
      if stage == Info {
        InfoKind(m);
      } else {
        LogKind(m);
      }
    }

    /** The frame of a stage under a number. */
    ghost function Frame(n: bv16, stage: Stage, p: Payload): (f: seq<byte>)
      ensures |f| == 26 + |p.data|
    {
      Encode(StageMessage(n, stage, p))
    }

    /** Builds the frame of a stage. */
    method BuildStage(stage: Stage, p: Payload, memory: bool) returns (frame: array?<byte>)
      requires Proper(p) && p.data != []
      modifies this`number
      ensures frame == null <==> !memory
      ensures number == Stepped(old(number), memory)
      ensures memory ==> fresh(frame) && frame[..] == Frame(old(number), stage, p)
    {
      hide Proper, Encode;
      var kind, ident := if stage == Info then INFO_KIND else LOG_KIND, if stage == Info then IDENT_STRUCT else IDENT_FILE;
      var code;
      code, frame := BuildFrame(p, kind, ident, memory);
    }

    /** Builds a frame and sends it on the connection. */
    method SendStage(stage: Stage, p: Payload, memory: bool, sends: nat -> int) returns (ok: bool)
      requires Proper(p) && p.data != []
      modifies this
      ensures ok == (memory && SendsWhole(26 + |p.data|, sends))
      ensures number == Stepped(old(number), memory)
      ensures events == old(events) + SendEvents(stage, Frame(old(number), stage, p), memory, sends)
    {
      hide Proper, Frame, Stepped, SendsWhole, SentBy, SendEvents;
      ghost var frame := Frame(number, stage, p);
      SentIs(events, stage, frame, sends);
      NoMemory(stage, frame, sends);
      var f := BuildStage(stage, p, memory);
      if f == null {
        Note(Close);
        return false;
      }
      var sent, wire := SendFrameData(f, sends);
      ok := sent == 0;
      assert wire == frame[..SentBy(|frame|, sends, 0, 0)];
      Note(Send(stage, wire, ok));
      if !ok {
        Note(Close);
      }
    }

    /** Connects, sends the information frame and waits for its acknowledgement. */
    method ExchangeInfo(a: Attempt, info: Payload) returns (ok: bool)
      requires Proper(info) && info.data != []
      modifies this
      ensures ok == InfoGoesThrough(a, 26 + |info.data|)
      ensures number == Stepped(old(number), a.connects && a.infoMemory)
      ensures events == old(events) + InfoEvents(a, Frame(old(number), Info, info))
    {
      hide Proper, Frame, Stepped, SendsWhole, Acknowledges, SendEvents, InfoEvents;
      InfoAdds(events, a, Frame(number, Info, info));
      Note(Connect(a.connects));
      if !a.connects {
        return false;
      }
      ok := SendStage(Info, info, a.infoMemory, a.infoSends);
      if !ok {
        return;
      }
      ok := Acknowledges(a.infoReply, INFO_ACK);
      Note(Answer(Info, ok));
    }

    /** Sends the data frame, waits for its acknowledgement and closes the connection. */
    method ExchangeData(a: Attempt, log: Payload) returns (ok: bool)
      requires Proper(log) && log.data != []
      modifies this
      ensures ok == DataGoesThrough(a, 26 + |log.data|)
      ensures number == Stepped(old(number), a.dataMemory)
      ensures events == old(events) + DataEvents(a, Frame(old(number), Data, log))
    {
      hide Proper, Frame, Stepped, SendsWhole, Acknowledges, SendEvents, DataEvents;
      DataAdds(events, a, Frame(number, Data, log));
      ok := SendStage(Data, log, a.dataMemory, a.dataSends);
      if !ok {
        return;
      }
      ok := Acknowledges(a.dataReply, DATA_ACK);
      Note(Answer(Data, ok));
      if ok {
        Note(Close);
      } else {
        assert events + [] == events;
      }
    }

    /** The two exchanges in order. */
    method MakeAttempt(a: Attempt, info: Payload, log: Payload) returns (ok: bool)
      requires Proper(info) && info.data != [] && Proper(log) && log.data != []
      modifies this
      ensures ok == (InfoGoesThrough(a, 26 + |info.data|) && DataGoesThrough(a, 26 + |log.data|))
      ensures events == old(events) + AttemptEvents(a, Frame(old(number), Info, info), Frame(Stepped(old(number), true), Data, log))
      ensures number == NumberAfter(old(number), a, info)
    {
      hide Proper, Frame, Stepped, SendsWhole, Acknowledges, InfoEvents, DataEvents, AttemptEvents;
      AttemptAdds(events, a, Frame(number, Info, info), Frame(Stepped(number, true), Data, log));
      ok := ExchangeInfo(a, info);
      if ok {
        ok := ExchangeData(a, log);
      }
    }

    /** One pass of the retry loop. */
    method TryUpload(a: Attempt, info: Payload, log: Payload) returns (ok: bool)
      requires Proper(info) && info.data != [] && Proper(log) && log.data != []
      modifies this
      ensures ok == Succeeds(a, info, log)
      ensures events == old(events) + AttemptEvents(a, Frame(old(number), Info, info), Frame(Stepped(old(number), true), Data, log))
      ensures number == NumberAfter(old(number), a, info)
      ensures Connects(events) == Connects(old(events)) + 1
      ensures Orderly(old(events)) ==> Orderly(events)
      ensures ok ==> GoesThrough(events, Frame(old(number), Info, info), Frame(Stepped(old(number), true), Data, log))
    {
      hide Proper, Frame, Stepped, InfoGoesThrough, DataGoesThrough, Orderly, Connects, AttemptEvents, GoesThrough, NumberAfter;
      AttemptIs(events, a, Frame(number, Info, info), Frame(Stepped(number, true), Data, log));
      ok := MakeAttempt(a, info, log);
    }

    /** What is seen of the first `k` attempts, the first of them with frame number `n`. */
    ghost function RunEvents(n: bv16, attempts: nat -> Attempt, k: nat, info: Payload, log: Payload): seq<Event> {
      if k == 0 then []
      else
        var m := NumberAfterAll(n, attempts, k - 1, info);
        RunEvents(n, attempts, k - 1, info, log) + AttemptEvents(attempts(k - 1), Frame(m, Info, info), Frame(Stepped(m, true), Data, log))
    }

    lemma {:induction false} NoAttempts(n: bv16, attempts: nat -> Attempt, info: Payload, log: Payload)
      ensures RunEvents(n, attempts, 0, info, log) == [] && NumberAfterAll(n, attempts, 0, info) == n
    {
    }

    lemma {:induction false} OneMoreAttempt(n: bv16, attempts: nat -> Attempt, k: nat, info: Payload, log: Payload)
      ensures var m := NumberAfterAll(n, attempts, k, info);
        && NumberAfterAll(n, attempts, k + 1, info) == NumberAfter(m, attempts(k), info)
        && RunEvents(n, attempts, k + 1, info, log) ==
            RunEvents(n, attempts, k, info, log) + AttemptEvents(attempts(k), Frame(m, Info, info), Frame(Stepped(m, true), Data, log))
    {
    }

    /** `tcp_upload_logs` with `retries` attempts allowed; `file` is the log file as far as it
        could be read. It returns 0 exactly if one of the attempts goes through all the steps,
        stops right after the first that does, and makes all of them if none does. What is
        seen is exactly what is seen of the attempts made. */
    method TcpUploadLogs(file: Option<Payload>, info: Payload, retries: nat, attempts: nat -> Attempt) returns (result: int)
      requires Proper(info) && info.data != [] && (file.Some? ==> Proper(file.value))
      requires Orderly(events)
      modifies this
      ensures Orderly(events) && old(events) <= events
      ensures result == 0 || result == -1
      ensures file.None? || file.value.data == [] ==> result == -1 && events == old(events)
      ensures file.Some? && file.value.data != [] ==>
        var made := Connects(events) - Connects(old(events));
        && (result == 0 <==> exists k: nat :: k < retries && Succeeds(attempts(k), info, file.value))
        && (forall k: nat :: k < made - (if result == 0 then 1 else 0) ==> !Succeeds(attempts(k), info, file.value))
        && 0 <= made <= retries
        && (result == 0 ==> made > 0 && Succeeds(attempts(made - 1), info, file.value))
        && (result != 0 ==> made == retries)
        && events == old(events) + RunEvents(old(number), attempts, made, info, file.value)
        && number == NumberAfterAll(old(number), attempts, made, info)
        && (result == 0 ==> exists n: bv16 ::
              GoesThrough(events, Frame(n, Info, info), Frame(Stepped(n, true), Data, file.value)))
    {
      hide Proper, Orderly, Connects, Frame, Stepped, Succeeds, GoesThrough, AttemptEvents, NumberAfter, RunEvents, NumberAfterAll;
      if file.None? || file.value.data == [] {
        return -1;
      }
      var tries := 0;
      result := -1;
      ghost var n, made := number, 0;
      NoAttempts(number, attempts, info, file.value);
      while tries < retries && result != 0
        invariant tries <= retries && (result == 0 || result == -1)
        invariant made == tries + if result == 0 then 1 else 0
        invariant Orderly(events) && Connects(events) == Connects(old(events)) + made
        invariant events == old(events) + RunEvents(old(number), attempts, made, info, file.value)
        invariant number == NumberAfterAll(old(number), attempts, made, info)
        invariant forall k: nat :: k < tries ==> !Succeeds(attempts(k), info, file.value)
        invariant result == 0 ==> tries < retries && Succeeds(attempts(tries), info, file.value)
        invariant result == 0 ==>
          GoesThrough(events, Frame(n, Info, info), Frame(Stepped(n, true), Data, file.value))
        decreases retries - tries, result != 0
      {
        OneMoreAttempt(old(number), attempts, made, info, file.value);
        n, made := number, made + 1;
        var ok := TryUpload(attempts(tries), info, file.value);
        if ok {
          result := 0;
        } else {
          tries := tries + 1;
        }
      }
    }
  }

  /** What an upload that went through brought to the server: the information and the whole
      log, provided the log is short enough for the frame's length field. */
  lemma {:induction false} ServerReadsUpload(t: seq<Event>, info: Message, log: Message)
    requires GoesThrough(t, Encode(info), Encode(log))
    requires Sized(info) && |info.data| < LENGTHS && Sized(log)
    ensures var infoFrame, dataFrame := t[|t| - 5].bytes, t[|t| - 3].bytes;
      && Decode(infoFrame) == Some(info)
      && (Decode(dataFrame) == Some(log) <==> |log.data| < LENGTHS)
  {
    hide Encode, Decode;
    DecodeOfEncode(info);
    DecodeOfEncode(log);
    var last := t[|t| - 6..];
    assert last[1] == t[|t| - 5] && last[3] == t[|t| - 3];
  }

  // ---- the trigger ----

  /** What happens to the flag that asks for an upload: a request, or the upload thread
      waking up with the log file over its size limit or not. */
  datatype Step = Request | Wake(full: bool)

  /** No request is lost, and none is served twice: the flag is set exactly when there was a
      request after the last time the thread woke up. */
  ghost predicate RequestedSinceWake(steps: seq<Step>) {
    exists j :: 0 <= j < |steps| && steps[j].Request? && forall i :: j < i < |steps| ==> !steps[i].Wake?
  }

  class Trigger {
    var flag: bool
    ghost var steps: seq<Step>

    ghost predicate Valid()
      reads this
    {
      flag <==> RequestedSinceWake(steps)
    }

    constructor ()
      ensures Valid() && steps == []
    {
      flag, steps := false, [];
    }

    /** `wtsl_logger_upload_logs`. */
    method RequestUpload()
      requires Valid()
      modifies this
      ensures Valid() && steps == old(steps) + [Request]
    {
      flag := true;
      steps := steps + [Request];
      assert steps[|steps| - 1].Request?;
    }

    /** One turn of `upload_thread_func`: whether it uploads. */
    method WakeUp(full: bool) returns (upload: bool)
      requires Valid()
      modifies this
      ensures Valid() && steps == old(steps) + [Wake(full)]
      ensures upload <==> full || RequestedSinceWake(old(steps))
    {
      var should := flag;
      flag := false;
      steps := steps + [Wake(full)];
      assert steps[|steps| - 1].Wake?;
      upload := should || full;
    }
  }
}
