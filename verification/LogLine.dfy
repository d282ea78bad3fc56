/** The log line buffer and the choice of the log mode. */
module LogLine {
  import opened CText
  import opened Options

  // ---- the line buffer ----

  const SIZE: nat := 4096

  /** What `snprintf` leaves of a text in a field of `n` bytes, NUL not counted. */
  function Fit(s: string, n: nat): string {
    if |s| <= n then s else s[..n]
  }

  /** All of the text, or as much of it as there is room for. */
  lemma {:induction false} FitIs(s: string, n: nat)
    ensures var t := Fit(s, n); t <= s && |t| <= n && (t == s || |t| == n)
  {
  }

  /** The buffer begins with this string and a NUL. */
  ghost predicate Holds(buf: array<char>, s: string)
    reads buf
  {
    |s| < buf.Length && buf[..|s|] == s && buf[|s|] == '\0'
  }

  /** `snprintf` at `at` into `n` bytes: as much as fits before a NUL, nothing into no bytes. */
  method Print(buf: array<char>, at: nat, n: nat, s: string)
    requires at + n <= buf.Length
    modifies buf
    ensures n > 0 ==> buf[at..at + |Fit(s, n - 1)|] == Fit(s, n - 1) && buf[at + |Fit(s, n - 1)|] == '\0'
    ensures buf[..at] == old(buf[..at])
    ensures n == 0 ==> buf[..] == old(buf[..])
  {
    if n > 0 {
      var t := Fit(s, n - 1);
      forall i | 0 <= i < |t| {
        buf[at + i] := t[i];
      }
      buf[at + |t|] := '\0';
      assert buf[at..at + |t|] == t;
    }
  }

  lemma {:induction false} WholeText(buf: array<char>, prefix: string, content: string, kept: string)
    requires |prefix| < SIZE == buf.Length && kept == Fit(prefix, SIZE - 2)
    requires prefix == kept || |prefix| == SIZE - 1
    requires buf[..|kept|] == kept
    requires var n := SIZE - |prefix| - 1;
      n > 0 ==> buf[|prefix|..|prefix| + |Fit(content, n - 1)|] == Fit(content, n - 1)
    ensures var text := Fit(prefix + content, SIZE - 2); buf[..|text|] == text
  {
    if |prefix| < SIZE - 1 {
      var c := Fit(content, SIZE - |prefix| - 2);
      assert buf[..|prefix| + |c|] == buf[..|prefix|] + buf[|prefix|..|prefix| + |c|];
      assert Fit(prefix + content, SIZE - 2) == prefix + c;
    } else {
      assert Fit(prefix + content, SIZE - 2) == kept;
    }
  }

  /** The buffer arithmetic of `wtsl_logger_log`: for every prefix shorter than the buffer and
      every content the buffer ends up with prefix and content, cut so that the newline and
      the NUL still fit. */
  method FormatLine(prefix: string, content: string) returns (buf: array<char>)
    requires |prefix| < SIZE
    ensures buf.Length == SIZE
    ensures Holds(buf, Fit(prefix + content, SIZE - 2) + "\n")
  {
    buf := new char[SIZE](_ => '\0');
    Print(buf, 0, SIZE - 1, prefix);
    var prefixLen := |prefix|;
    ghost var kept := Fit(prefix, SIZE - 2);
    assert buf[..|kept|] == kept;
    assert prefixLen <= SIZE - 2 ==> buf[..prefixLen] == prefix;
    Print(buf, prefixLen, SIZE - prefixLen - 1, content);
    var total := prefixLen + |content|;
    ghost var text := Fit(prefix + content, SIZE - 2);
    WholeText(buf, prefix, content, kept);
    if total < SIZE - 2 {
      buf[total] := '\n';
      buf[total + 1] := '\0';
    } else {
      buf[SIZE - 2] := '\n';
      buf[SIZE - 1] := '\0';
    }
    assert buf[..|text| + 1] == text + "\n";
  }

  // ---- the log mode ----

  const CAP: nat := 255      // what fgets takes into LINE_LENGTH bytes

  datatype Mode = Unknown | All | Product

  /** `toupper` in the C locale. */
  function Up(c: char): char {
    if 'a' <= c <= 'z' then (c as int - 32) as char else c
  }

  /** Equal but for upper and lower case: `strcasecmp`. */
  predicate SameLetters(s: string, t: string) {
    |s| == |t| && forall i :: 0 <= i < |s| ==> Up(s[i]) == Up(t[i])
  }

  /** The mode that a line names, if it is one of the two words and nothing else. */
  function ModeOf(s: string): Mode {
    if SameLetters(s, "ALL") then All else if SameLetters(s, "PRODUCT") then Product else Unknown
  }

  /** The characters that count as the same letter. */
  lemma {:induction false} SameLetter(c: char, d: char)
    ensures Up(c) == Up(d) <==>
      c == d || ('a' <= c <= 'z' && d as int == c as int - 32) || ('a' <= d <= 'z' && c as int == d as int - 32)
  {
  }

  /** Which lines name a mode, letter by letter. */
  lemma {:induction false} ModeLetters(s: string)
    ensures ModeOf(s) == All <==> |s| == 3 && s[0] in {'A', 'a'} && s[1] in {'L', 'l'} && s[2] in {'L', 'l'}
    ensures ModeOf(s) == Product <==>
      |s| == 7 && s[0] in {'P', 'p'} && s[1] in {'R', 'r'} && s[2] in {'O', 'o'} && s[3] in {'D', 'd'}
      && s[4] in {'U', 'u'} && s[5] in {'C', 'c'} && s[6] in {'T', 't'}
  {
    var all, product := "ALL", "PRODUCT";
    assert |all| == 3 && |product| == 7;
    if |s| == 3 {
      assert SameLetters(s, all) <==> Up(s[0]) == Up(all[0]) && Up(s[1]) == Up(all[1]) && Up(s[2]) == Up(all[2]);
    }
    if |s| == 7 {
      assert SameLetters(s, product) <==>
        (Up(s[0]) == Up(product[0]) && Up(s[1]) == Up(product[1]) && Up(s[2]) == Up(product[2])
         && Up(s[3]) == Up(product[3]) && Up(s[4]) == Up(product[4]) && Up(s[5]) == Up(product[5])
         && Up(s[6]) == Up(product[6]));
    }
  }

  /** `parse_config_mode`: compares an upper-case copy of at most 31 letters. */
  method ParseConfigMode(s: string) returns (mode: Mode)
    ensures mode == ModeOf(s)
  {
    var upper := "";
    var i := 0;
    while i < |s| && i < 31
      invariant 0 <= i <= |s| && i <= 31 && |upper| == i
      invariant forall k :: 0 <= k < i ==> upper[k] == Up(s[k])
    {
      upper := upper + [Up(s[i])];
      i := i + 1;
    }
    mode := if upper == "ALL" then All else if upper == "PRODUCT" then Product else Unknown;
    var all, product := "ALL", "PRODUCT";
    assert |all| == 3 && |product| == 7;
    assert forall k :: 0 <= k < 3 ==> Up(all[k]) == all[k];
    assert forall k :: 0 <= k < 7 ==> Up(product[k]) == product[k];
  }

  /** The lines of the file as the loop sees them: read as C strings and trimmed. */
  function TrimmedLines(text: string): (lines: seq<string>)
    ensures |lines| == |Pieces(text, CAP)|
    ensures forall i :: 0 <= i < |lines| ==> lines[i] == Trim(CStr(Pieces(text, CAP)[i]))
  {
    var ps := Pieces(text, CAP);
    seq(|ps|, i requires 0 <= i < |ps| => Trim(CStr(ps[i])))
  }

  /** A section header: `[`, a name and a `]`. */
  predicate IsHeader(line: string) {
    line != [] && line[0] == '[' && IndexOf(line, ']') < |line|
  }

  /** The header of the section that the mode belongs in. */
  predicate IsChipHeader(line: string) {
    IsHeader(line) && SameLetters(Trim(line[1..IndexOf(line, ']')]), "chip log_system")
  }

  /** A bracketed name begins a section, whatever follows it, and it is the section for the mode
      if the name is the right one in any case and between any blanks. */
  lemma {:induction false} HeaderNamed(name: string, rest: string)
    requires Lacks(name, |name|, ']')
    ensures var line := "[" + name + "]" + rest;
      IsHeader(line) && (IsChipHeader(line) <==> SameLetters(Trim(name), "chip log_system"))
  {
    hide Trim, SameLetters;
    var line := "[" + name + "]" + rest;
    assert forall x :: 0 <= x < |name| ==> line[x + 1] == name[x];
    assert line[|name| + 1] == ']';
    IndexOfIs(line, ']', |name| + 1);
    assert line[1..|name| + 1] == name;
  }

  ghost predicate Bracketed(line: string, name: string, rest: string) {
    line == "[" + name + "]" + rest && Lacks(name, |name|, ']')
  }

  lemma {:induction false} HeaderSplits(line: string)
    requires IsHeader(line)
    ensures var n := IndexOf(line, ']'); 1 <= n < |line| && Bracketed(line, line[1..n], line[n + 1..])
  {
    IndexOfFinds(line, ']');
    hide IndexOf;
    var n := IndexOf(line, ']');
    assert line == "[" + line[1..n] + "]" + line[n + 1..];
  }

  /** Only such lines begin a section. */
  lemma {:induction false} HeaderHasName(line: string)
    ensures IsHeader(line) <==> exists name: string, rest: string :: Bracketed(line, name, rest)
  {
    if name: string, rest: string :| Bracketed(line, name, rest) {
      HeaderNamed(name, rest);
    }
    if IsHeader(line) {
      HeaderSplits(line);
    }
  }

  /** The header at `h` is that of the section, and there is no other before line `i`. */
  ghost predicate Governs(lines: seq<string>, h: nat, i: nat)
    requires i <= |lines|
  {
    h < i && IsChipHeader(lines[h]) && forall k :: h < k < i ==> !IsHeader(lines[k])
  }

  /** The last header before line `i` is that of the section. */
  ghost predicate InSection(lines: seq<string>, i: nat)
    requires i <= |lines|
  {
    exists h: nat :: Governs(lines, h, i)
  }

  /** A line of the section that names a mode. */
  ghost predicate NamesMode(lines: seq<string>, i: nat)
    requires i < |lines|
  {
    ModeOf(lines[i]) != Unknown && InSection(lines, i)
  }

  ghost predicate FirstToName(lines: seq<string>, i: nat)
    requires i < |lines|
  {
    NamesMode(lines, i) && forall k :: 0 <= k < i ==> !NamesMode(lines, k)
  }

  /** The mode is that of the first line of the section that names one, and `All` if none does. */
  ghost predicate Chosen(lines: seq<string>, mode: Mode) {
    || (exists i: nat :: i < |lines| && FirstToName(lines, i) && mode == ModeOf(lines[i]))
    || (mode == All && forall i :: 0 <= i < |lines| ==> !NamesMode(lines, i))
  }

  lemma {:induction false} ChosenIsUnique(lines: seq<string>, a: Mode, b: Mode)
    requires Chosen(lines, a) && Chosen(lines, b)
    ensures a == b
  {
    if exists i: nat :: i < |lines| && FirstToName(lines, i) {
      var i: nat :| i < |lines| && FirstToName(lines, i) && a == ModeOf(lines[i]);
      var j: nat :| j < |lines| && FirstToName(lines, j) && b == ModeOf(lines[j]);
      assert i <= j && j <= i;
    }
  }

  lemma {:induction false} HeaderBefore(lines: seq<string>, h: nat, i: nat)
    requires i < |lines| && Governs(lines, h, i + 1) && !IsHeader(lines[i])
    ensures Governs(lines, h, i)
  {
  }

  lemma {:induction false} SectionStep(lines: seq<string>, i: nat)
    requires i < |lines|
    ensures InSection(lines, i + 1) <==> if IsHeader(lines[i]) then IsChipHeader(lines[i]) else InSection(lines, i)
  {
    hide IsHeader;
    if IsChipHeader(lines[i]) {
      assert Governs(lines, i, i + 1);
    } else if !IsHeader(lines[i]) && InSection(lines, i) {
      var h: nat :| Governs(lines, h, i);
      assert Governs(lines, h, i + 1);
    }
    if InSection(lines, i + 1) && !IsHeader(lines[i]) {
      var h: nat :| Governs(lines, h, i + 1);
      HeaderBefore(lines, h, i);
    }
    if InSection(lines, i + 1) && IsHeader(lines[i]) {
      var h: nat :| Governs(lines, h, i + 1);
      assert h == i;
    }
  }

  /** Headers, comments and blank lines name no mode. */
  lemma {:induction false} NoModeHere(line: string)
    requires line == [] || line[0] == '[' || line[0] == '#' || line[0] == ';'
    ensures ModeOf(line) == Unknown
  {
  }

  class LogSystem {
    var mode: Mode

    constructor ()
      ensures mode == Unknown
    {
      mode := Unknown;
    }

    /** `parse_config_file`; there is none if the file cannot be opened. */
    method ParseConfigFile(file: Option<string>) returns (code: int)
      modifies this
      ensures file == None ==> code == -1 && mode == old(mode)
      ensures file.Some? ==> code == 0 && Chosen(TrimmedLines(file.value), mode)
    {
      hide Trim, CStr, Pieces, IndexOf, SameLetters;
      if file == None {
        return -1;
      }
      var lines := TrimmedLines(file.value);
      var inSection, found, newMode := false, false, Unknown;
      for i := 0 to |lines|
        invariant inSection <==> InSection(lines, i)
        invariant !found ==> forall k :: 0 <= k < i ==> !NamesMode(lines, k)
        invariant found ==> exists k: nat :: k < i && FirstToName(lines, k) && newMode == ModeOf(lines[k])
      {
        SectionStep(lines, i);
        var line := lines[i];
        if |line| == 0 {
          NoModeHere(line);
        } else if line[0] == '[' {
          NoModeHere(line);
          var end := IndexOf(line, ']');
          if IsHeader(line) {
            inSection := IsChipHeader(line);
          }
        } else if inSection {
          if line[0] == '#' || line[0] == ';' {
            NoModeHere(line);
          } else if !found {
            var lineMode := ParseConfigMode(line);
            if lineMode != Unknown {
              newMode := lineMode;
              found := true;
            }
          }
        }
      }
      mode := if found then newMode else All;
      return 0;
    }
  }
}
