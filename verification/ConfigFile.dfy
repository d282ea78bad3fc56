/** The configuration file on disk: the code that trims and parses lines in place,
    rewrites the file through a temporary one, and looks keys up. */
module ConfigFile {
  import opened CText
  import opened Options
  import opened ConfigLine
  import opened ConfigText
  import opened ConfigWrite
  import opened CNumbers

  const WORK: nat := 1024       // MAX_LINE_LENGTH

  // Result codes of the configuration functions.
  const SUCCESS := 0
  const ERROR_IO := -1
  const ERROR_NOT_FOUND := -3
  const ERROR_INVALID_PARAM := -4
  const ERROR_FORMAT := -7

  // ---- strings in a buffer ----

  /** The bytes from `i` on are the C string `s`. */
  ghost predicate StrAt(b: array<char>, i: nat, s: string)
    reads b
  {
    && i + |s| < b.Length && b[i + |s|] == '\0' && NulFree(s)
    && forall x :: i <= x < i + |s| ==> b[x] == s[x - i]
  }

  /** `strlen`. */
  method StrLen(buf: array<char>, str: nat, ghost s: string) returns (n: nat)
    requires StrAt(buf, str, s)
    ensures n == |s|
  {
    n := 0;
    while buf[str + n] != '\0'
      invariant n <= |s|
      decreases |s| - n
    {
      n := n + 1;
    }
  }

  /** Ends the string early: what starts at `str + i` now is `s[i..j]`. */
  method CutString(buf: array<char>, str: nat, ghost s: string, ghost i: nat, j: nat)
    requires StrAt(buf, str, s) && i <= j <= |s|
    modifies buf
    ensures StrAt(buf, str + i, s[i..j])
    ensures forall x :: 0 <= x < buf.Length && x != str + j ==> buf[x] == old(buf[x])
  {
    buf[str + j] := '\0';
  }

  /** Trims the C string at `str` in place: the result is where the trimmed string starts,
      and no byte but the one after it changes. */
  method TrimWhitespace(buf: array<char>, str: nat, ghost s: string) returns (p: nat)
    requires StrAt(buf, str, s)
    modifies buf
    ensures StrAt(buf, p, Trim(s)) && str <= p && p + |Trim(s)| <= str + |s|
    ensures forall x :: 0 <= x < buf.Length && x != p + |Trim(s)| ==> buf[x] == old(buf[x])
  {
    hide Trim;
    var n := StrLen(buf, str, s);
    var i := 0;
    while IsSpace(buf[str + i])
      invariant i <= n && Blank(s, 0, i)
      decreases n - i
    {
      assert buf[str + i] == s[i];
      i := i + 1;
    }
    p := str + i;
    if buf[p] == '\0' {
      TrimIs(s, n, n);
      return;
    }
    var end := n - 1;
    while i < end && IsSpace(buf[str + end])
      invariant i <= end < n && Blank(s, end + 1, n)
    {
      assert buf[str + end] == s[end];
      end := end - 1;
    }
    assert buf[str + i] == s[i] && buf[str + end] == s[end];
    TrimIs(s, i, end + 1);
    CutString(buf, str, s, i, end + 1);
  }

  /** `is_valid_key`. */
  method IsValidKey(key: string) returns (ok: bool)
    ensures ok <==> ValidKey(key)
    ensures ok <==> 0 < |key| < 64 && !exists x :: 0 <= x < |key| && key[x] in {'=', '#', '\n', '\r'}
  {
    if |key| == 0 || |key| >= MAX_KEY {
      return false;
    }
    for i := 0 to |key|
      invariant forall x :: 0 <= x < i ==> key[x] != '=' && key[x] != '#' && key[x] != '\n' && key[x] != '\r'
    {
      if key[i] == '=' || key[i] == '#' || key[i] == '\n' || key[i] == '\r' {
        return false;
      }
    }
    return true;
  }

  /** `is_valid_value`. */
  method IsValidValue(value: string) returns (ok: bool)
    ensures ok <==> ValidValue(value)
    ensures ok <==> |value| < 256 && !exists x :: 0 <= x < |value| && value[x] in {'\n', '\r'}
  {
    if |value| >= MAX_VALUE {
      return false;
    }
    IndexOfFinds(value, '\n');
    IndexOfFinds(value, '\r');
    var n, r := IndexOf(value, '\n'), IndexOf(value, '\r');
    ok := n == |value| && r == |value|;
  }

  /** `strncpy` of a C string that fits, and the NULs it pads with. */
  method CopyIn(buf: array<char>, s: string)
    requires |s| < buf.Length && NulFree(s)
    modifies buf
    ensures StrAt(buf, 0, s)
  {
    for i := 0 to buf.Length
      invariant forall x :: 0 <= x < i ==> buf[x] == if x < |s| then s[x] else '\0'
    {
      buf[i] := if i < |s| then s[i] else '\0';
    }
  }

  /** Trims the C string at `str` and reads it out. */
  method TrimmedPart(buf: array<char>, str: nat, ghost s: string) returns (part: string)
    requires StrAt(buf, str, s)
    modifies buf
    ensures part == Trim(s)
    ensures forall x :: 0 <= x < buf.Length && !(str <= x <= str + |s|) ==> buf[x] == old(buf[x])
  {
    var p := TrimWhitespace(buf, str, s);
    var n := StrLen(buf, p, Trim(s));
    part := buf[p..p + n];
  }

  /** `strchr` for the `=`: its offset, or the length. */
  method FindEquals(buf: array<char>, str: nat, ghost s: string) returns (n: nat)
    requires StrAt(buf, str, s)
    ensures n == IndexOf(s, '=') && n <= |s|
  {
    n := 0;
    while buf[str + n] != '\0' && buf[str + n] != '='
      invariant n <= |s| && Lacks(s, n, '=')
      decreases |s| - n
    {
      n := n + 1;
    }
    IndexOfIs(s, '=', n);
  }

  /** Cuts the string `t` at its `=` and trims both halves. */
  method SplitEntry(work: array<char>, trimmed: nat, n: nat, ghost t: string) returns (key: string, value: string)
    requires StrAt(work, trimmed, t) && n < |t|
    modifies work
    ensures key == Trim(t[..n]) && value == Trim(t[n + 1..])
  {
    var equals := trimmed + n;
    work[equals] := '\0';
    assert StrAt(work, trimmed, t[..n]);
    key := TrimmedPart(work, trimmed, t[..n]);
    assert StrAt(work, equals + 1, t[n + 1..]);
    value := TrimmedPart(work, equals + 1, t[n + 1..]);
  }

  /** `parse_config_line`: cuts a copy of the line up in place. */
  method ParseConfigLine(line: string) returns (e: Option<Entry>)
    requires NulFree(line) && |line| <= LINE
    ensures e == Parse(line)
  {
    hide Trim, IndexOf, ValidKey, ValidValue;
    ghost var t := Trim(line);
    var work := new char[WORK];
    CopyIn(work, line);
    var trimmed := TrimWhitespace(work, 0, line);
    var len := StrLen(work, trimmed, t);
    if len == 0 || work[trimmed] == '#' {
      return None;
    }
    var n := FindEquals(work, trimmed, t);
    if n == len {
      return None;
    }
    var key, value := SplitEntry(work, trimmed, n, t);
    var okKey := IsValidKey(key);
    var okValue := IsValidValue(value);
    e := if okKey && okValue then Some(Entry(key, value)) else None;
  }

  // ---- the file ----

  /** What is on the disk: the configuration file and its temporary, if they exist. */
  datatype Disk = Disk(live: Option<string>, temp: Option<string>)

  function TextOf(file: Option<string>): string {
    if file.Some? then file.value else []
  }

  /** How the file system answers one `config_set`: whether each call succeeds, and how
      many bytes the temporary file can take, if there is a limit, before writes are cut
      short; and what is in the parser's buffers. */
  datatype Io = Io(tempOpens: bool, origOpens: bool, room: Option<nat>, renames: bool, stack: Stack)

  /** Everything works. */
  predicate Smooth(io: Io) {
    io.tempOpens && io.origOpens && io.room.None? && io.renames
  }

  function Cut(s: string, room: Option<nat>): string {
    if room.None? || |s| <= room.value then s else s[..room.value]
  }

  /** The text that `config_set` reads: an original that does not open counts as empty. */
  ghost function Original(live: Option<string>, io: Io): string {
    if io.origOpens then TextOf(live) else []
  }

  /** What `config_set` means to write to the temporary file. */
  ghost function Intended(live: Option<string>, io: Io, key: string, value: string): string {
    Written(Original(live, io), key, value, io.stack)
  }

  lemma {:induction false} NoMorePieces()
    ensures Pieces([], LINE) == []
  {
  }

  lemma {:induction false} NothingStored()
    ensures Store(Meanings(CStrs([]))) == map[] && StoreOf([]) == map[]
  {
    NoMorePieces();
  }

  lemma {:induction false} SetTextOfNothing(key: string, value: string)
    ensures SetText([], key, value) == Print(key, value)
  {
    SetTextIsEntry([], key, value);
    NoMorePieces();
  }

  /** The lines with the key hold no NULs. */
  ghost predicate NoNulsWith(text: string, key: string) {
    var ps := Pieces(text, LINE);
    forall i :: 0 <= i < |ps| && Has(Parse(CStr(ps[i])), key) ==> NulFree(ps[i])
  }

  /** All of the new text gets into the temporary file: there is room for what is meant, and
      nothing is lost with an original that does not open; or, if the key is there and is not
      found, each line with it is the entry already and there is room for the old text only. */
  ghost predicate Whole(live: Option<string>, io: Io, key: string, value: string) {
    var text := Original(live, io);
    if Finds(text, key, io.stack) then
      && (io.room.None? || |Intended(live, io, key, value)| <= io.room.value)
      && (io.origOpens || SoleLine(Lines(TextOf(live)), key))
    else io.room == Some(|Concat(Lines(text))|) && AllAre(Lines(text), key, value)
  }

  lemma {:induction false} WholeWhenFound(live: Option<string>, io: Io, key: string, value: string)
    requires Finds(Original(live, io), key, io.stack)
    ensures Cut(Intended(live, io, key, value), io.room) == SetText(TextOf(live), key, value) <==> Whole(live, io, key, value)
  {
    hide SetText, Written, Print, Lines, SoleLine, StoreOf, Findable;
    WrittenWhenFound(Original(live, io), key, value, io.stack);
    SetTextIsEntry(TextOf(live), key, value);
    SetTextOfNothing(key, value);
  }

  /** A line with the key that is not the entry is not where the entry begins. */
  lemma {:induction false} EntryNotHere(line: string, rest: string, p: string, last: bool)
    requires Piece(line, LINE) && Piece(p, LINE) && p[|p| - 1] == '\n' && line != p
    requires if last then rest == p else Full(line, LINE)
    ensures !(p <= line + rest)
  {
    var t := line + rest;
    if |line| >= |p| {
      assert t[..|line|] == line;
      assert t[|p| - 1] == line[|p| - 1];
    } else if last {
      assert t[|p| - 1] == rest[|p| - 1 - |line|];
    } else {
      assert t[|line| - 1] == line[|line| - 1];
    }
  }

  /** Each line with the key is a whole piece. */
  ghost predicate KeyLinesFramed(lines: seq<string>, key: string) {
    forall i :: 0 <= i < |lines| && Has(Parse(lines[i]), key) ==>
      Piece(lines[i], LINE) && (i < |lines| - 1 ==> Full(lines[i], LINE))
  }

  lemma {:induction false} FirstOfLines(lines: seq<string>, key: string, value: string)
    requires lines != [] && KeyLinesFramed(lines, key)
    ensures KeyLinesFramed(lines[1..], key)
    ensures AllAre(lines, key, value) <==>
      (Has(Parse(lines[0]), key) ==> lines[0] == Print(key, value)) && AllAre(lines[1..], key, value)
  {
    hide Parse, Print;
    var rest := lines[1..];
    assert forall i :: 0 <= i < |rest| ==> rest[i] == lines[i + 1];
    assert forall i :: 0 < i < |lines| ==> lines[i] == rest[i - 1];
  }

  lemma {:induction false} SameStart(p: string, a: string, b: string)
    ensures p + a <= p + b <==> a <= b
  {
    if p + a <= p + b {
      assert forall x :: 0 <= x < |a| ==> a[x] == (p + a)[|p| + x] == (p + b)[|p| + x] == b[x];
    }
  }

  lemma {:induction false} FirstFramed(lines: seq<string>, key: string, value: string)
    requires KeyLinesFramed(lines, key) && ValidKey(key) && ValidValue(value)
    requires lines != [] && Has(Parse(lines[0]), key)
    ensures Piece(lines[0], LINE) && (|lines| > 1 ==> Full(lines[0], LINE))
    ensures var p := Print(key, value); Piece(p, LINE) && p[|p| - 1] == '\n'
  {
    PrintIsPiece(key, value);
  }

  lemma {:induction false} NoLines(key: string, value: string)
    ensures AllAre([], key, value) && Concat(Rewrite([], key, value)) == []
  {
    assert Rewrite([], key, value) == [];
  }

  lemma {:induction false} ConcatFirst(lines: seq<string>, p: string)
    requires lines != []
    ensures Concat(lines) + p == lines[0] + (Concat(lines[1..]) + p)
  {
    assert Concat(lines) == lines[0] + Concat(lines[1..]);
  }

  lemma {:induction false} NothingAdded(rest: seq<string>, p: string)
    ensures rest == [] ==> Concat(rest) + p == p
  {
  }

  lemma {:induction false} ShorterPrefix(p: string, more: string, t: string)
    ensures p + more <= t ==> p <= t
  {
    if p + more <= t {
      assert p == (p + more)[..|p|] == t[..|p|];
    }
  }

  /** The meant text begins what an added entry makes of the old one exactly if the two do not
      differ before that entry. */
  lemma {:induction false} MeantIsPrefix(lines: seq<string>, key: string, value: string)
    requires KeyLinesFramed(lines, key) && ValidKey(key) && ValidValue(value)
    ensures Concat(Rewrite(lines, key, value)) <= Concat(lines) + Print(key, value) <==> AllAre(lines, key, value)
  {
    hide Parse, Print, Rewrite, AllAre, KeyLinesFramed, Concat, OnSomeLine;
    var p := Print(key, value);
    if lines == [] {
      NoLines(key, value);
    } else {
      var l, rest := lines[0], lines[1..];
      var added, meant := Concat(rest) + p, Concat(Rewrite(rest, key, value));
      ConcatFirst(lines, p);
      RewriteFirst(lines, key, value);
      FirstOfLines(lines, key, value);
      MeantIsPrefix(rest, key, value);
      if Has(Parse(l), key) && l != p {
        NothingAdded(rest, p);
        FirstFramed(lines, key, value);
        EntryNotHere(l, added, p, rest == []);
        ShorterPrefix(p, meant, l + added);
      } else {
        SameStart(l, meant, added);
      }
    }
  }

  lemma {:induction false} KeyLinesAreFramed(text: string, key: string)
    requires NoNulsWith(text, key)
    ensures KeyLinesFramed(Lines(text), key)
  {
    hide Parse, Pieces, CStr;
    var ps := Pieces(text, LINE);
    forall i | 0 <= i < |ps| && Has(Parse(CStr(ps[i])), key)
      ensures Piece(CStr(ps[i]), LINE) && (i < |ps| - 1 ==> Full(CStr(ps[i]), LINE))
    {
      CStrWhole(ps[i]);
    }
  }

  lemma {:induction false} WholeWhenMissed(live: Option<string>, io: Io, key: string, value: string)
    requires ValidKey(key) && ValidValue(value)
    requires !Finds(Original(live, io), key, io.stack) && NoNulsWith(Original(live, io), key)
    ensures Cut(Intended(live, io, key, value), io.room) == SetText(TextOf(live), key, value) <==> Whole(live, io, key, value)
  {
    hide Parse, Pieces, Print, Store, AllAre, Findable;
    NothingStored();
    var lines, p := Lines(Original(live, io)), Print(key, value);
    var r := Rewrite(lines, key, value);
    StoreOnLine(lines, key);
    KeyLinesAreFramed(Original(live, io), key);
    MeantIsPrefix(lines, key, value);
    SameLines(lines, key, value);
    assert SetLines(lines, key, value) == r;
    ConcatLonger(lines, key, value);
    ConcatOne(lines, p);
    assert Cut(Concat(lines) + p, io.room) <= Concat(lines) + p;
  }

  /** Lines with the key are found, or have no NULs. */
  ghost predicate Tellable(live: Option<string>, io: Io, key: string) {
    Finds(Original(live, io), key, io.stack) || NoNulsWith(Original(live, io), key)
  }

  /** What gets into the temporary file is all of the new text exactly under that condition. */
  lemma {:induction false} WholeExactly(live: Option<string>, io: Io, key: string, value: string)
    requires ValidKey(key) && ValidValue(value) && Tellable(live, io, key)
    ensures Cut(Intended(live, io, key, value), io.room) == SetText(TextOf(live), key, value) <==> Whole(live, io, key, value)
  {
    hide SetText, Whole, Intended, Cut, Finds;
    if Finds(Original(live, io), key, io.stack) {
      WholeWhenFound(live, io, key, value);
    } else {
      WholeWhenMissed(live, io, key, value);
    }
  }

  /** The configuration file has its old text in the first `n` states and its final
      contents in all later ones. */
  ghost predicate SwitchesAt(states: seq<Disk>, n: nat, before: Option<string>, after: Option<string>) {
    && n <= |states|
    && (forall i :: 0 <= i < n ==> TextOf(states[i].live) == TextOf(before))
    && (forall i :: n <= i < |states| ==> states[i].live == after)
  }

  /** What `config_get` returns, and what it leaves in the caller's buffer of `len` bytes. */
  ghost function GetResult(file: Option<string>, key: string, buffer: string, len: nat, st: Stack): (int, string) {
    if !ValidKey(key) || !ValidValue(buffer) || len == 0 then (ERROR_INVALID_PARAM, buffer)
    else if file.None? || key !in StoreOf(file.value) || !Findable(key, st) then (ERROR_NOT_FOUND, buffer)
    else (SUCCESS, Cut(ValueRead(StoreOf(file.value)[key], st), Some(len - 1)))
  }

  /** What `config_get_int` returns and stores, when its local buffer holds `stale` and the
      caller's variable holds `was`. */
  ghost function GetIntResult(file: Option<string>, key: string, stale: string, was: int, st: Stack): (int, int) {
    var (code, s) := GetResult(file, key, stale, MAX_VALUE, st);
    if code != SUCCESS then (code, was)
    else
      var (n, end) := Strtol(s);
      if end == 0 || end != |s| then (ERROR_FORMAT, was) else (SUCCESS, ToInt(n))
  }

  /** A buffer with room for `n` bytes holds all of the text, or as much as there is room for. */
  predicate Fills(out: string, text: string, n: nat) {
    out <= text && |out| <= n && (out == text || |out| == n)
  }

  /** The key is on a line of the file and compares equal. */
  ghost predicate Listed(file: Option<string>, key: string, st: Stack) {
    file.Some? && OnSomeLine(Lines(file.value), key) && Findable(key, st)
  }

  /** The buffer is filled from the first line with the key. */
  ghost predicate FilledFrom(lines: seq<string>, key: string, st: Stack, out: string, n: nat) {
    exists i: nat :: FirstWith(lines, key, i) && Fills(out, ValueRead(Parse(lines[i]).value.value, st), n)
  }

  /** Getting succeeds exactly for valid arguments and a key that is listed, and fills the buffer
      from the first line with the key; otherwise the buffer stays. */
  lemma {:induction false} GetResultIs(file: Option<string>, key: string, buffer: string, len: nat, st: Stack)
    ensures var (code, out) := GetResult(file, key, buffer, len, st);
      var valid := ValidKey(key) && ValidValue(buffer) && 0 < len;
      && (code == SUCCESS <==> valid && Listed(file, key, st))
      && (code == ERROR_INVALID_PARAM <==> !valid)
      && (code == ERROR_NOT_FOUND <==> valid && !Listed(file, key, st))
      && (code != SUCCESS ==> out == buffer)
      && (code == SUCCESS ==> FilledFrom(Lines(file.value), key, st, out, len - 1))
  {
    hide Parse, Lines, ValidKey, ValidValue, Findable, ValueRead;
    if file.Some? {
      StoreOnLine(Lines(file.value), key);
      StoreIsFirst(Lines(file.value), key);
    }
  }

  /** The text is a number, and this is the `int` that it becomes. */
  ghost predicate ReadsAs(text: string, n: int) {
    exists a, b :: NumberAt(text, a, b) && n == ToInt(NumberOf(text, a, b))
  }

  lemma {:induction false} NumberOrNot(text: string)
    ensures var (n, end) := Strtol(text);
      && (IsNumber(text) <==> end != 0 && end == |text|)
      && (IsNumber(text) ==> ReadsAs(text, ToInt(n)))
  {
    hide Strtol, NumberOf, ToInt;
    StrtolExactly(text);
    if IsNumber(text) {
      var a, b :| NumberAt(text, a, b);
    }
  }

  ghost predicate IntCode(text: string, code: int, n: int) {
    code == (if IsNumber(text) then SUCCESS else ERROR_FORMAT) && (code == SUCCESS ==> ReadsAs(text, n))
  }

  /** The first line with the key has this number for its value, or has none. */
  ghost predicate NumberFrom(lines: seq<string>, key: string, code: int, n: int) {
    exists i: nat :: FirstWith(lines, key, i) && IntCode(Parse(lines[i]).value.value, code, n)
  }

  /** A number is got exactly where getting succeeds and the first line with the key has one for
      its value; where it has something else that is a format error. */
  lemma {:induction false} GetIntResultIs(file: Option<string>, key: string, stale: string, was: int, st: Stack)
    ensures var (code, n) := GetIntResult(file, key, stale, was, st);
      var valid := ValidKey(key) && ValidValue(stale);
      && (code == ERROR_INVALID_PARAM <==> !valid)
      && (code == ERROR_NOT_FOUND <==> valid && !Listed(file, key, st))
      && (code != SUCCESS ==> n == was)
      && (valid && Listed(file, key, st) ==> NumberFrom(Lines(file.value), key, code, n))
  {
    hide Parse, Lines, ValidKey, Findable, GetResult, Strtol, ToInt, ReadsAs, IsNumber, OnSomeLine;
    GetResultIs(file, key, stale, MAX_VALUE, st);
    var (got, text) := GetResult(file, key, stale, MAX_VALUE, st);
    if got == SUCCESS {
      var i: nat :| FirstWith(Lines(file.value), key, i)
        && Fills(text, ValueRead(Parse(Lines(file.value)[i]).value.value, st), MAX_VALUE - 1);
      var line := Lines(file.value)[i];
      ParseTrimmed(line);
      var v := Parse(line).value.value;
      assert text == v by { assert ValueRead(v, st)[..|v|] == v; }
      NumberOrNot(text);
      assert IntCode(v, GetIntResult(file, key, stale, was, st).0, GetIntResult(file, key, stale, was, st).1);
    }
  }

  /** What is written for these pieces, and whether the key was found on one. */
  ghost function Copies(ps: seq<string>, key: string, value: string, st: Stack): seq<string> {
    if Findable(key, st) then Rewrite(CStrs(ps), key, value) else CStrs(ps)
  }

  ghost predicate Found(ps: seq<string>, key: string, st: Stack) {
    Findable(key, st) && OnSomeLine(CStrs(ps), key)
  }

  lemma {:induction false} LinesAround(ps: seq<string>, p: string, key: string, value: string, st: Stack)
    ensures var l := CStr(p); var now := Findable(key, st) && Has(Parse(l), key);
      && Copies(ps + [p], key, value, st) == Copies(ps, key, value, st) + [if now then Print(key, value) else l]
      && (Found(ps + [p], key, st) <==> Found(ps, key, st) || now)
  {
    hide Parse, CStr, Print;
    var ls, l := CStrs(ps), CStr(p);
    var all := ls + [l];
    assert CStrs(ps + [p]) == all;
    assert Rewrite(all, key, value) == Rewrite(ls, key, value) + [if Has(Parse(l), key) then Print(key, value) else l];
    if OnSomeLine(ls, key) {
      var i :| 0 <= i < |ls| && Has(Parse(ls[i]), key);
      assert all[i] == ls[i];
    }
    assert all[|ls|] == l;
  }

  /** Writing to a file that was cut short leaves the cut of the whole. */
  lemma {:induction false} CutAgain(s: string, t: string, room: Option<nat>)
    ensures Cut(Cut(s, room) + t, room) == Cut(s + t, room)
  {
    if room.Some? && |s| > room.value {
      assert (s[..room.value] + t)[..room.value] == (s + t)[..room.value];
    }
  }

  lemma {:induction false} MeaningsAround(done: seq<string>, p: string, after: seq<string>)
    ensures Meanings(CStrs(done + [p] + after)) == Meanings(CStrs(done)) + ([Parse(CStr(p))] + Meanings(CStrs(after)))
    ensures Meanings(CStrs(done + [p])) == Meanings(CStrs(done)) + [Parse(CStr(p))]
  {
    hide Parse, CStr;
  }

  /** The first line that holds a key decides. */
  lemma {:induction false} StoreAtFirst(done: seq<string>, p: string, after: seq<string>, key: string)
    requires key !in Store(Meanings(CStrs(done))) && Has(Parse(CStr(p)), key)
    ensures var m := Store(Meanings(CStrs(done + [p] + after))); key in m && m[key] == Parse(CStr(p)).value.value
  {
    hide Parse, CStr;
    var m, tail := Parse(CStr(p)), Meanings(CStrs(after));
    MeaningsAround(done, p, after);
    assert ([m] + tail)[1..] == tail;
    StoreConcat(Meanings(CStrs(done)), [m] + tail);
  }

  lemma {:induction false} StoreNotYet(done: seq<string>, p: string, key: string)
    requires key !in Store(Meanings(CStrs(done))) && !Has(Parse(CStr(p)), key)
    ensures key !in Store(Meanings(CStrs(done + [p])))
  {
    hide Parse, CStr;
    MeaningsAround(done, p, []);
    assert [Parse(CStr(p))][1..] == [];
    StoreConcat(Meanings(CStrs(done)), [Parse(CStr(p))]);
  }

  lemma {:induction false} NothingToCopy(key: string, value: string, st: Stack)
    ensures Copies([], key, value, st) == [] && Concat([]) == [] && !Found([], key, st)
  {
  }

  lemma {:induction false} IntendedIs(live: Option<string>, io: Io, key: string, value: string, ps: seq<string>)
    requires ps == if io.origOpens then Pieces(TextOf(live), LINE) else []
    ensures Intended(live, io, key, value) ==
      Concat(Copies(ps, key, value, io.stack) + if Found(ps, key, io.stack) then [] else [Print(key, value)])
  {
    NoMorePieces();
  }

  lemma {:induction false} NextPiece(t: string)
    requires t != []
    ensures var n := PieceLen(t, LINE); Pieces(t, LINE) == [t[..n]] + Pieces(t[n..], LINE)
  {
  }

  /** The bytes of one `fgets` result as C reads them. */
  method ReadAsCStr(p: string) returns (line: string)
    ensures line == CStr(p) && NulFree(line) && |line| <= |p|
  {
    IndexOfFinds(p, '\0');
    line := p[..IndexOf(p, '\0')];
  }

  class Config {
    var disk: Disk
    ghost var states: seq<Disk>   // every state that a crash could have left so far

    constructor (live: Option<string>)
      ensures disk == Disk(live, None) && states == [disk]
    {
      disk := Disk(live, None);
      states := [Disk(live, None)];
    }

    /** One effect on the disk. */
    method Become(d: Disk)
      modifies this
      ensures disk == d && states == old(states) + [d]
    {
      disk := d;
      states := states + [d];
    }

    /** `fprintf` to the temporary file; its result is not looked at. */
    method WriteTemp(s: string, io: Io)
      requires disk.temp.Some?
      modifies this
      ensures disk == old(disk).(temp := Some(Cut(old(disk).temp.value + s, io.room)))
      ensures states == old(states) + [disk]
    {
      Become(disk.(temp := Some(Cut(disk.temp.value + s, io.room))));
    }

    /** The temporary file holds these lines, rewritten, as far as there was room. */
    ghost predicate Copied(done: seq<string>, key: string, value: string, io: Io, updated: bool)
      reads this
    {
      && disk.temp == Some(Cut(Concat(Copies(done, key, value, io.stack)), io.room))
      && updated == Found(done, key, io.stack)
    }

    /** Since there were `n` states, the configuration file was not touched. */
    ghost predicate LiveKept(n: nat, live: Option<string>)
      reads this
    {
      n <= |states| && disk.live == live && forall i :: n <= i < |states| ==> states[i].live == live
    }

    /** Copies one line, replacing it if it holds the key. */
    method CopyLine(p: string, key: string, value: string, io: Io, updated: bool, ghost done: seq<string>)
      returns (now: bool)
      requires |p| <= LINE && |key| < MAX_KEY && Copied(done, key, value, io, updated)
      modifies this
      ensures Copied(done + [p], key, value, io, now)
      ensures states == old(states) + [disk] && disk.live == old(disk).live
    {
      hide Parse, CStr, Print, Copies, Found;
      ghost var copies := Copies(done, key, value, io.stack);
      LinesAround(done, p, key, value, io.stack);
      var line := ReadAsCStr(p);
      var e := ParseConfigLine(line);
      ParseTrimmed(line);
      if e.Some? {
        ComparesEqual(key, e.value.key, io.stack);
      }
      if e.Some? && KeyRead(e.value.key, io.stack) == key {
        ConcatOne(copies, Print(key, value));
        CutAgain(Concat(copies), Print(key, value), io.room);
        WriteTemp(Print(key, value), io);
        now := true;
      } else {
        ConcatOne(copies, line);
        CutAgain(Concat(copies), line, io.room);
        WriteTemp(line, io);
        now := updated;
      }
    }

    /** Copies the configuration file to the temporary one line by line, with every line
        that holds the key replaced. */
    method CopyLines(key: string, value: string, io: Io) returns (updated: bool)
      requires disk.live.Some? && disk.temp == Some([]) && |key| < MAX_KEY
      modifies this
      ensures Copied(Pieces(old(disk).live.value, LINE), key, value, io, updated)
      ensures old(states) <= states && LiveKept(|old(states)|, old(disk).live)
    {
      hide Parse, CStr, Pieces, Print, Copies, Found;
      ghost var ps := Pieces(disk.live.value, LINE);
      ghost var done: seq<string> := [];
      var rest := disk.live.value;
      updated := false;
      NothingToCopy(key, value, io.stack);
      while rest != []
        invariant ps == done + Pieces(rest, LINE)
        invariant Copied(done, key, value, io, updated)
        invariant old(states) <= states && LiveKept(|old(states)|, old(disk).live)
        decreases |rest|
      {
        var n := PieceLen(rest, LINE);
        NextPiece(rest);
        updated := CopyLine(rest[..n], key, value, io, updated, done);
        done := done + [rest[..n]];
        rest := rest[n..];
      }
      assert done == ps by { NoMorePieces(); }
    }

    /** Up to the rename: the temporary file holds the intended text as far as there was
        room, and the configuration file still has its old text. */
    method FillTemp(key: string, value: string, io: Io)
      requires io.tempOpens && |key| < MAX_KEY
      modifies this
      ensures disk.temp == Some(Cut(Intended(old(disk).live, io, key, value), io.room))
      ensures TextOf(disk.live) == TextOf(old(disk).live)
      ensures old(states) <= states
      ensures forall i :: |old(states)| <= i < |states| ==> TextOf(states[i].live) == TextOf(old(disk).live)
    {
      hide Parse, Print, Concat, Pieces, Intended, Copies, Found;
      ghost var live0 := disk.live;
      Become(disk.(temp := Some([])));
      var updated := false;
      if io.origOpens {
        Become(disk.(live := Some(TextOf(disk.live))));
        updated := CopyLines(key, value, io);
      } else {
        NothingToCopy(key, value, io.stack);
      }
      ghost var ps := if io.origOpens then Pieces(TextOf(live0), LINE) else [];
      assert Copied(ps, key, value, io, updated);
      IntendedIs(live0, io, key, value, ps);
      ghost var lines := Copies(ps, key, value, io.stack);
      if !updated {
        ConcatOne(lines, Print(key, value));
        CutAgain(Concat(lines), Print(key, value), io.room);
        WriteTemp(Print(key, value), io);
      } else {
        assert lines + [] == lines;
      }
    }

    /** `config_set`: writes the new text to the temporary file and renames it over the
        configuration file. On success the file holds what was meant as far as there was
        room, which is the new text exactly if that was whole; the code cannot tell. */
    method ConfigSet(key: string, value: string, io: Io) returns (code: int)
      requires NulFree(key) && NulFree(value)
      modifies this
      ensures var valid, text := ValidKey(key) && ValidValue(value), Intended(old(disk).live, io, key, value);
        && code == (if !valid then ERROR_INVALID_PARAM else if io.tempOpens && io.renames then SUCCESS else ERROR_IO)
        && (code == SUCCESS ==> disk == Disk(Some(Cut(text, io.room)), None))
        && (code != SUCCESS ==> TextOf(disk.live) == TextOf(old(disk).live))
        && (code == ERROR_INVALID_PARAM ==> disk == old(disk) && states == old(states))
        && (code == ERROR_IO ==> if io.tempOpens then disk.temp == None else disk == old(disk))
      ensures code == SUCCESS && Tellable(old(disk).live, io, key) ==>
        (TextOf(disk.live) == SetText(TextOf(old(disk).live), key, value) <==> Whole(old(disk).live, io, key, value))
      ensures old(states) <= states
      ensures exists n: nat :: SwitchesAt(states[|old(states)|..], n, old(disk).live, disk.live)
    {
      hide Intended, SetText, Whole, Tellable;
      ghost var n0, live0 := |states|, disk.live;
      assert states[n0..] == [] && SwitchesAt([], 0, live0, live0);
      var okKey := IsValidKey(key);
      var okValue := IsValidValue(value);
      if !okKey || !okValue {
        return ERROR_INVALID_PARAM;
      }
      if !io.tempOpens {
        return ERROR_IO;
      }
      FillTemp(key, value, io);
      ghost var n := |states| - n0;
      if !io.renames {
        Become(disk.(temp := None));
        assert SwitchesAt(states[n0..], n + 1, live0, disk.live);
        return ERROR_IO;
      }
      Become(Disk(disk.temp, None));
      if Tellable(live0, io, key) {
        WholeExactly(live0, io, key, value);
      }
      assert SwitchesAt(states[n0..], n, live0, disk.live);
      return SUCCESS;
    }

    /** The loop of `config_get` over the lines: it stops at the first match. */
    method FindEntry(key: string, st: Stack) returns (value: Option<string>)
      requires disk.live.Some? && |key| < MAX_KEY
      ensures var m := StoreOf(disk.live.value); value == if key in m && Findable(key, st) then Some(m[key]) else None
    {
      hide Parse, Pieces, CStr, KeyRead, Findable;
      ghost var ps := Pieces(disk.live.value, LINE);
      ghost var done: seq<string> := [];
      var rest := disk.live.value;
      NothingStored();
      while rest != []
        invariant ps == done + Pieces(rest, LINE)
        invariant Findable(key, st) ==> key !in Store(Meanings(CStrs(done)))
        decreases |rest|
      {
        var n := PieceLen(rest, LINE);
        ghost var p, after := rest[..n], Pieces(rest[n..], LINE);
        NextPiece(rest);
        assert ps == done + [p] + after;
        var line := ReadAsCStr(rest[..n]);
        var e := ParseConfigLine(line);
        ParseTrimmed(line);
        if e.Some? {
          ComparesEqual(key, e.value.key, st);
        }
        if e.Some? && KeyRead(e.value.key, st) == key {
          StoreAtFirst(done, p, after, key);
          return Some(e.value.value);
        }
        if Findable(key, st) {
          StoreNotYet(done, p, key);
        }
        done := done + [p];
        rest := rest[n..];
      }
      assert done == ps by { NoMorePieces(); }
      return None;
    }

    /** `config_get`: the value of the first line with the key, cut to the buffer. `buffer`
        is what the buffer holds on entry, which the code checks as if it were a value. */
    method ConfigGet(key: string, buffer: string, len: nat, st: Stack) returns (code: int, out: string)
      requires NulFree(key) && NulFree(buffer)
      ensures (code, out) == GetResult(disk.live, key, buffer, len, st)
      ensures code == SUCCESS <==> ValidKey(key) && ValidValue(buffer) && 0 < len && Listed(disk.live, key, st)
      ensures code == ERROR_INVALID_PARAM <==> !ValidKey(key) || !ValidValue(buffer) || len == 0
      ensures code == SUCCESS || code == ERROR_INVALID_PARAM || code == ERROR_NOT_FOUND
      ensures code != SUCCESS ==> out == buffer
      ensures code == SUCCESS ==> FilledFrom(Lines(disk.live.value), key, st, out, len - 1)
    {
      GetResultIs(disk.live, key, buffer, len, st);
      hide Parse, Pieces, CStr, Listed, FilledFrom, Lines;
      out := buffer;
      var okKey := IsValidKey(key);
      var okValue := IsValidValue(buffer);
      if !okKey || !okValue || len == 0 {
        return ERROR_INVALID_PARAM, out;
      }
      if disk.live.None? {
        return ERROR_NOT_FOUND, out;
      }
      var found := FindEntry(key, st);
      if found.Some? {
        var value := ValueRead(found.value, st);
        return SUCCESS, if |value| <= len - 1 then value else value[..len - 1];
      }
      return ERROR_NOT_FOUND, out;
    }

    /** `config_set_int`. */
    method ConfigSetInt(key: string, value: int, io: Io) returns (code: int)
      requires NulFree(key) && INT_MIN <= value <= INT_MAX
      modifies this
      ensures var ok, text := ValidKey(key), Intended(old(disk).live, io, key, IntText(value));
        && code == (if !ok then ERROR_INVALID_PARAM else if io.tempOpens && io.renames then SUCCESS else ERROR_IO)
        && (code == SUCCESS ==> disk == Disk(Some(Cut(text, io.room)), None))
        && (code != SUCCESS ==> TextOf(disk.live) == TextOf(old(disk).live))
      ensures var live, number := old(disk).live, IntText(value);
        code == SUCCESS && Tellable(live, io, key) ==>
          (TextOf(disk.live) == SetText(TextOf(live), key, number) <==> Whole(live, io, key, number))
    {
      hide Intended, SetText, Whole, Tellable;
      IntTextPlain(value);
      code := ConfigSet(key, IntText(value), io);
    }

    /** `config_get_int`. */
    method ConfigGetInt(key: string, stale: string, was: int, st: Stack) returns (code: int, value: int)
      requires NulFree(key) && NulFree(stale)
      ensures (code, value) == GetIntResult(disk.live, key, stale, was, st)
      ensures code == ERROR_INVALID_PARAM <==> !ValidKey(key) || !ValidValue(stale)
      ensures code == ERROR_NOT_FOUND <==> ValidKey(key) && ValidValue(stale) && !Listed(disk.live, key, st)
      ensures code != SUCCESS ==> value == was
      ensures ValidKey(key) && ValidValue(stale) && Listed(disk.live, key, st) ==>
        NumberFrom(Lines(disk.live.value), key, code, value)
    {
      GetIntResultIs(disk.live, key, stale, was, st);
      hide Parse, Lines, Listed, NumberFrom, Strtol, ToInt, GetResult, ValidKey, ValidValue;
      var s;
      code, s := ConfigGet(key, stale, MAX_VALUE, st);
      value := was;
      if code != SUCCESS {
        return;
      }
      var (n, end) := Strtol(s);
      if end == 0 || end != |s| {
        return ERROR_FORMAT, value;
      }
      value := ToInt(n);
    }
  }
}
