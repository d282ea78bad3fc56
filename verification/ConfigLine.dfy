/** The meaning of one line of the configuration file. */
module ConfigLine {
  import opened CText
  import opened Options

  const MAX_KEY: nat := 64      // CONFIG_MAX_KEY_LENGTH
  const MAX_VALUE: nat := 256   // CONFIG_MAX_VALUE_LENGTH

  datatype Entry = Entry(key: string, value: string)

  ghost predicate ValidKey(key: string) {
    && 0 < |key| < MAX_KEY
    && forall x :: 0 <= x < |key| ==> key[x] != '=' && key[x] != '#' && key[x] != '\n' && key[x] != '\r'
  }

  ghost predicate ValidValue(value: string) {
    |value| < MAX_VALUE && forall x :: 0 <= x < |value| ==> value[x] != '\n' && value[x] != '\r'
  }

  ghost function MakeEntry(key: string, value: string): Option<Entry> {
    if ValidKey(key) && ValidValue(value) then Some(Entry(key, value)) else None
  }

  /** The key and value on a line; none for blanks, comments and malformed lines. */
  ghost function Parse(line: string): (e: Option<Entry>) {
    var t := Trim(line);
    var n := IndexOf(t, '=');
    if t == [] || t[0] == '#' || n == |t| then None
    else MakeEntry(Trim(t[..n]), Trim(t[n + 1..]))
  }

  /** Parsing by position: the line's core is `i..j` and its first `=` is at `n`. */
  lemma {:induction false} ParseAt(line: string, i: nat, n: nat, j: nat)
    requires Core(line, i, j) && i <= n < j && line[n] == '='
    requires line[i] != '#' && forall x :: i <= x < n ==> line[x] != '='
    ensures Parse(line) == MakeEntry(Trim(line[i..n]), Trim(line[n + 1..j]))
  {
    hide Trim, IndexOf, MakeEntry;
    TrimIs(line, i, j);
    var t := line[i..j];
    IndexOfIs(t, '=', n - i);
    assert t[..n - i] == line[i..n] && t[n - i + 1..] == line[n + 1..j];
  }

  /** The line holds key and value around its first `=`, at `n`, between the blanks around
      `i..j`; it is no comment, and both parts are valid. */
  ghost predicate EntryAt(line: string, i: nat, n: nat, j: nat, key: string, value: string) {
    && Core(line, i, j) && i <= n < j
    && line[i] != '#' && line[n] == '=' && (forall x :: i <= x < n ==> line[x] != '=')
    && key == Trim(line[i..n]) && value == Trim(line[n + 1..j]) && ValidKey(key) && ValidValue(value)
  }

  lemma {:induction false} EntryFound(line: string) returns (i: nat, n: nat, j: nat)
    requires Parse(line).Some?
    ensures EntryAt(line, i, n, j, Parse(line).value.key, Parse(line).value.value)
  {
    i, j := TrimSpan(line);
    var t := Trim(line);
    hide Trim;
    IndexOfFinds(t, '=');
    var m := IndexOf(t, '=');
    n := i + m;
    assert t[..m] == line[i..n] && t[m + 1..] == line[n + 1..j];
    assert forall x :: i <= x < n ==> line[x] == t[x - i];
  }

  /** A line means an entry exactly if it holds it so. */
  lemma {:induction false} MeansExactly(line: string, key: string, value: string)
    ensures Parse(line) == Some(Entry(key, value)) <==> exists i, n, j :: EntryAt(line, i, n, j, key, value)
  {
    hide Parse, Trim, Core;
    if i: nat, n: nat, j: nat :| EntryAt(line, i, n, j, key, value) {
      ParseAt(line, i, n, j);
    }
    if Parse(line) == Some(Entry(key, value)) {
      var i, n, j := EntryFound(line);
    }
  }

  /** The line that `config_set` writes for an entry. */
  function Print(key: string, value: string): string {
    key + "=" + value + "\n"
  }

  /** An entry that `config_set` may write under a trimmed key. */
  ghost predicate Writable(key: string, value: string) {
    ValidKey(key) && Trimmed(key) && ValidValue(value)
  }

  lemma {:induction false} TrimValue(value: string)
    requires ValidValue(value)
    ensures ValidValue(Trim(value))
  {
    var i, j := TrimSpan(value);
  }

  /** Cutting blanks off the end first changes nothing; the cut text ends in no blank. */
  lemma {:induction false} TrimTail(value: string) returns (m: nat)
    ensures m <= |value| && Blank(value, m, |value|) && (0 < m ==> !IsSpace(value[m - 1]))
    ensures Trim(value[..m]) == Trim(value)
  {
    var i, j := TrimSpan(value);
    m := if i < j then j else 0;
    var v := value[..m];
    if i < j {
      TrimIs(v, i, j);
    } else {
      TrimIs(v, 0, 0);
    }
  }

  /** `line` is this entry, between blanks that end at `a` and blanks that fill the rest. */
  ghost predicate Holds(line: string, a: nat, key: string, value: string) {
    var n := a + |key|;
    var v := n + 1 + |value|;
    && v <= |line| && Blank(line, 0, a) && Blank(line, v, |line|)
    && line[a..n] == key && line[n] == '=' && line[n + 1..v] == value
  }

  /** A line that holds an entry, its key trimmed, means that entry, its value trimmed. */
  lemma {:induction false} ParseOfHolds(line: string, a: nat, key: string, value: string)
    requires Holds(line, a, key, value) && Writable(key, value)
    ensures Parse(line) == Some(Entry(key, Trim(value)))
  {
    hide Parse, Trim;
    var n := a + |key|;
    var m := TrimTail(value);
    assert forall x :: a <= x < n ==> line[x] == key[x - a];
    assert forall x :: n + 1 <= x < n + 1 + |value| ==> line[x] == value[x - n - 1];
    assert Core(line, a, n + 1 + m);
    assert line[n + 1..n + 1 + m] == value[..m];
    TrimTrims(key);
    ParseAt(line, a, n, n + 1 + m);
    TrimValue(value);
  }

  /** Parsing a printed entry gives it back, its value trimmed. */
  lemma {:induction false} ParseOfPrint(key: string, value: string)
    requires Writable(key, value)
    ensures Parse(Print(key, value)) == Some(Entry(key, Trim(value)))
  {
    var line := Print(key, value);
    assert line[0..|key|] == key && line[|key|] == '=' && line[|key| + 1..|key| + 1 + |value|] == value;
    ParseOfHolds(line, 0, key, value);
  }

  /** Keys and values that a line holds are trimmed and valid. */
  lemma {:induction false} ParseTrimmed(line: string)
    ensures Parse(line).Some? ==>
      var Entry(k, v) := Parse(line).value;
      ValidKey(k) && Trimmed(k) && ValidValue(v) && Trimmed(v)
  {
    var t := Trim(line);
    var n := IndexOf(t, '=');
    if n < |t| {
      TrimTrims(t[..n]);
      TrimTrims(t[n + 1..]);
    }
  }

  // ---- the parser's buffers ----

  /** What a caller of the parser finds in its two buffers from the last byte on, up to a
      NUL: the parser never writes that byte, and a key of 63 bytes or a value of 255
      leaves no NUL before it. */
  datatype Stack = Stack(keyRest: string, valueRest: string)

  /** The key buffer as a C string. */
  function KeyRead(key: string, st: Stack): string {
    key + if |key| == MAX_KEY - 1 then st.keyRest else []
  }

  /** The value buffer as a C string. */
  function ValueRead(value: string, st: Stack): string {
    value + if |value| == MAX_VALUE - 1 then st.valueRest else []
  }

  /** A line with this key compares equal to it. */
  predicate Findable(key: string, st: Stack) {
    |key| < MAX_KEY - 1 || st.keyRest == []
  }

  lemma {:induction false} ComparesEqual(key: string, other: string, st: Stack)
    requires |key| < MAX_KEY && |other| < MAX_KEY
    ensures KeyRead(other, st) == key <==> other == key && Findable(key, st)
  {
  }
}
