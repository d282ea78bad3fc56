/** The configuration file as text: the map from keys to values that it stands for, and the
    text that setting a key is meant to make of it. */
module ConfigText {
  import opened CText
  import opened Options
  import opened ConfigLine

  const LINE: nat := 511   // what fgets takes into CONFIG_MAX_LINE_LENGTH bytes

  // ---- the map that a list of line meanings stands for ----

  type Meaning = Option<Entry>

  predicate Has(m: Meaning, key: string) {
    m.Some? && m.value.key == key
  }

  /** The first line that holds a key decides its value. */
  function Store(ms: seq<Meaning>): map<string, string> {
    if ms == [] then map[]
    else
      var rest := Store(ms[1..]);
      match ms[0]
      case None => rest
      case Some(Entry(k, v)) => rest[k := v]
  }

  function Replace(ms: seq<Meaning>, e: Entry): (r: seq<Meaning>)
    ensures |r| == |ms|
    ensures forall i :: 0 <= i < |r| ==> r[i] == if Has(ms[i], e.key) then Some(e) else ms[i]
  {
    seq(|ms|, i requires 0 <= i < |ms| => if Has(ms[i], e.key) then Some(e) else ms[i])
  }

  lemma {:induction false} StoreHas(ms: seq<Meaning>, key: string)
    ensures key in Store(ms) <==> exists i :: 0 <= i < |ms| && Has(ms[i], key)
  {
    if ms != [] {
      var rest := ms[1..];
      StoreHas(rest, key);
      assert forall i :: 0 <= i < |rest| ==> rest[i] == ms[i + 1];
      assert forall i :: 0 < i < |ms| ==> ms[i] == rest[i - 1];
    }
  }

  lemma {:induction false} StoreAppend(ms: seq<Meaning>, last: Entry)
    ensures Store(ms + [Some(last)]) ==
      if last.key in Store(ms) then Store(ms) else Store(ms)[last.key := last.value]
  {
    var all := ms + [Some(last)];
    if ms == [] {
      assert all[1..] == [];
    } else {
      StoreAppend(ms[1..], last);
      assert all[1..] == ms[1..] + [Some(last)];
      assert all[0] == ms[0];
    }
  }

  lemma {:induction false} StoreConcat(ms: seq<Meaning>, tail: seq<Meaning>)
    ensures Store(ms + tail) == Store(tail) + Store(ms)
  {
    if ms == [] {
      assert ms + tail == tail;
    } else {
      StoreConcat(ms[1..], tail);
      assert (ms + tail)[1..] == ms[1..] + tail;
    }
  }

  lemma {:induction false} StoreReplace(ms: seq<Meaning>, e: Entry)
    ensures Store(Replace(ms, e)) == if e.key in Store(ms) then Store(ms)[e.key := e.value] else Store(ms)
  {
    if ms != [] {
      StoreReplace(ms[1..], e);
      assert Replace(ms, e)[1..] == Replace(ms[1..], e);
    }
  }

  // ---- lines ----

  /** The C strings that `fgets` results are read as. */
  function CStrs(ps: seq<string>): (ls: seq<string>)
    ensures |ls| == |ps| && forall i :: 0 <= i < |ls| ==> ls[i] == CStr(ps[i])
  {
    seq(|ps|, i requires 0 <= i < |ps| => CStr(ps[i]))
  }

  /** The lines that a loop over the file sees: each `fgets` piece, read as a C string. */
  function Lines(text: string): seq<string> {
    CStrs(Pieces(text, LINE))
  }

  ghost function Meanings(lines: seq<string>): (ms: seq<Meaning>)
    ensures |ms| == |lines| && forall i :: 0 <= i < |ms| ==> ms[i] == Parse(lines[i])
  {
    seq(|lines|, i requires 0 <= i < |lines| => Parse(lines[i]))
  }

  ghost function StoreOf(text: string): map<string, string> {
    Store(Meanings(Lines(text)))
  }

  /** What is written for the lines that are read: those that hold the key become the new entry. */
  ghost function Rewrite(lines: seq<string>, key: string, value: string): (r: seq<string>)
    ensures |r| == |lines|
    ensures forall i :: 0 <= i < |r| ==> r[i] == if Has(Parse(lines[i]), key) then Print(key, value) else lines[i]
  {
    seq(|lines|, i requires 0 <= i < |lines| => if Has(Parse(lines[i]), key) then Print(key, value) else lines[i])
  }

  /** The key is on some line. */
  ghost predicate OnSomeLine(lines: seq<string>, key: string) {
    exists i :: 0 <= i < |lines| && Has(Parse(lines[i]), key)
  }

  /** Every line with the key replaced, and the entry appended if there was none. */
  ghost function SetLines(lines: seq<string>, key: string, value: string): seq<string> {
    Rewrite(lines, key, value) + (if OnSomeLine(lines, key) then [] else [Print(key, value)])
  }

  /** The text that setting a key is meant to leave. */
  ghost function SetText(text: string, key: string, value: string): string {
    Concat(SetLines(Lines(text), key, value))
  }

  lemma {:induction false} StoreOnLine(lines: seq<string>, key: string)
    ensures key in Store(Meanings(lines)) <==> OnSomeLine(lines, key)
  {
    var ms := Meanings(lines);
    StoreHas(ms, key);
    if OnSomeLine(lines, key) {
      var i :| 0 <= i < |lines| && Has(Parse(lines[i]), key);
      assert Has(ms[i], key);
    }
  }

  /** The first line that holds the key. */
  ghost predicate FirstWith(lines: seq<string>, key: string, i: nat) {
    i < |lines| && Has(Parse(lines[i]), key) && forall k :: 0 <= k < i ==> !Has(Parse(lines[k]), key)
  }

  /** A key has the value that the first line with it gives, and none if there is no such line. */
  lemma {:induction false} StoreIsFirst(lines: seq<string>, key: string)
    ensures key in Store(Meanings(lines)) ==>
      exists i: nat :: FirstWith(lines, key, i) && Store(Meanings(lines))[key] == Parse(lines[i]).value.value
  {
    hide Parse;
    if lines != [] && key in Store(Meanings(lines)) {
      assert Meanings(lines)[1..] == Meanings(lines[1..]);
      if Has(Parse(lines[0]), key) {
        assert FirstWith(lines, key, 0);
      } else {
        StoreIsFirst(lines[1..], key);
        var j: nat :| FirstWith(lines[1..], key, j) && Store(Meanings(lines[1..]))[key] == Parse(lines[1..][j]).value.value;
        assert forall k :: 0 < k < |lines| ==> lines[k] == lines[1..][k - 1];
        assert FirstWith(lines, key, j + 1);
      }
    }
  }

  lemma {:induction false} StoreTrimmed(lines: seq<string>, key: string)
    requires key in Store(Meanings(lines))
    ensures var value := Store(Meanings(lines))[key];
      Writable(key, value) && Trimmed(value)
  {
    ParseTrimmed(lines[0]);
    assert Meanings(lines)[1..] == Meanings(lines[1..]);
    if Parse(lines[0]) == None || Parse(lines[0]).value.key != key {
      StoreTrimmed(lines[1..], key);
    }
  }

  lemma {:induction false} MeaningsOfRewrite(lines: seq<string>, key: string, value: string)
    requires Writable(key, value)
    ensures Meanings(Rewrite(lines, key, value)) == Replace(Meanings(lines), Entry(key, Trim(value)))
  {
    ParseOfPrint(key, value);
  }

  lemma {:induction false} MeaningsOfSetLines(lines: seq<string>, key: string, value: string)
    requires Writable(key, value)
    ensures var e := Entry(key, Trim(value));
      Meanings(SetLines(lines, key, value)) ==
        Replace(Meanings(lines), e) + (if OnSomeLine(lines, key) then [] else [Some(e)])
  {
    MeaningsOfRewrite(lines, key, value);
    ParseOfPrint(key, value);
  }

  /** On lines, setting is a map update. */
  lemma {:induction false} StoreOfSetLines(lines: seq<string>, key: string, value: string)
    requires Writable(key, value)
    ensures Store(Meanings(SetLines(lines, key, value))) == Store(Meanings(lines))[key := Trim(value)]
  {
    hide Parse;
    var e := Entry(key, Trim(value));
    StoreReplace(Meanings(lines), e);
    StoreOnLine(lines, key);
    MeaningsOfSetLines(lines, key, value);
    var r := Replace(Meanings(lines), e);
    if OnSomeLine(lines, key) {
      assert r + [] == r;
    } else {
      StoreAppend(r, e);
    }
  }

  /** The key is on all lines that hold anything, of which there is at most one. */
  ghost predicate SoleLine(lines: seq<string>, key: string) {
    && (forall i :: 0 <= i < |lines| && lines[i] != [] ==> Has(Parse(lines[i]), key))
    && (forall i, j :: 0 <= i < j < |lines| ==> lines[i] == [] || lines[j] == [])
  }

  lemma {:induction false} ConcatNothing(lines: seq<string>)
    ensures Concat(lines) == [] <==> forall i :: 0 <= i < |lines| ==> lines[i] == []
  {
    if lines != [] {
      ConcatNothing(lines[1..]);
      assert forall i :: 0 < i < |lines| ==> lines[i] == lines[1..][i - 1];
      assert forall i :: 0 <= i < |lines| - 1 ==> lines[1..][i] == lines[i + 1];
    }
  }

  lemma {:induction false} RewriteFirst(lines: seq<string>, key: string, value: string)
    requires lines != []
    ensures Concat(Rewrite(lines, key, value)) ==
      (if Has(Parse(lines[0]), key) then Print(key, value) else lines[0]) + Concat(Rewrite(lines[1..], key, value))
    ensures OnSomeLine(lines, key) <==> Has(Parse(lines[0]), key) || OnSomeLine(lines[1..], key)
  {
    hide Parse, Print;
    assert Rewrite(lines, key, value)[1..] == Rewrite(lines[1..], key, value);
    assert forall i :: 0 < i < |lines| ==> lines[i] == lines[1..][i - 1];
    assert forall i :: 0 <= i < |lines| - 1 ==> lines[1..][i] == lines[i + 1];
  }

  lemma {:induction false} EmptyMeansNothing()
    ensures Parse([]) == None
  {
    TrimIs([], 0, 0);
  }

  lemma {:induction false} SoleLineFirst(lines: seq<string>, key: string)
    requires lines != []
    ensures Has(Parse(lines[0]), key) ==>
      (SoleLine(lines, key) <==> forall i :: 0 <= i < |lines| - 1 ==> lines[1..][i] == [])
    ensures !Has(Parse(lines[0]), key) ==> (SoleLine(lines, key) <==> lines[0] == [] && SoleLine(lines[1..], key))
  {
    hide Parse;
    EmptyMeansNothing();
    assert forall i :: 0 < i < |lines| ==> lines[i] == lines[1..][i - 1];
    assert forall i :: 0 <= i < |lines| - 1 ==> lines[1..][i] == lines[i + 1];
  }

  lemma {:induction false} RewriteNothing(lines: seq<string>, key: string, value: string)
    ensures Concat(Rewrite(lines, key, value)) == [] <==> forall i :: 0 <= i < |lines| ==> lines[i] == []
  {
    hide Parse;
    EmptyMeansNothing();
    var r := Rewrite(lines, key, value);
    ConcatNothing(r);
    assert |Print(key, value)| > 0;
    assert forall i :: 0 <= i < |lines| ==> (lines[i] == [] <==> r[i] == []);
  }

  lemma {:induction false} RewriteIsEntry(lines: seq<string>, key: string, value: string)
    requires OnSomeLine(lines, key)
    ensures |Concat(Rewrite(lines, key, value))| >= |Print(key, value)|
    ensures Concat(Rewrite(lines, key, value)) == Print(key, value) <==> SoleLine(lines, key)
  {
    hide Parse, Print, SoleLine;
    RewriteFirst(lines, key, value);
    SoleLineFirst(lines, key);
    var p, rest := Print(key, value), Concat(Rewrite(lines[1..], key, value));
    if Has(Parse(lines[0]), key) {
      RewriteNothing(lines[1..], key, value);
      assert p + rest == p <==> rest == [];
    } else {
      RewriteIsEntry(lines[1..], key, value);
      assert |lines[0] + rest| == |p| ==> lines[0] == [];
    }
  }

  /** What is written is never shorter than the new entry, and is nothing else if and only
      if the file had nothing else. */
  lemma {:induction false} SetTextIsEntry(text: string, key: string, value: string)
    ensures |SetText(text, key, value)| >= |Print(key, value)|
    ensures SetText(text, key, value) == Print(key, value) <==> SoleLine(Lines(text), key)
  {
    hide Parse, Print;
    var lines, p := Lines(text), Print(key, value);
    var r := Rewrite(lines, key, value);
    if OnSomeLine(lines, key) {
      assert SetLines(lines, key, value) == r;
      RewriteIsEntry(lines, key, value);
    } else {
      ConcatOne(r, p);
      ConcatNothing(r);
      assert r == lines;
      assert Concat(r) + p == p <==> Concat(r) == [];
    }
  }

  // ---- from lines back to bytes ----

  /** A text file, and a C string: no NUL bytes. */
  ghost predicate NulFree(text: string) {
    Lacks(text, |text|, '\0')
  }

  /** The text ends where a line ends, so that appended bytes start a new one. */
  ghost predicate EndsLine(text: string) {
    var ps := Pieces(text, LINE);
    ps != [] ==> Full(ps[|ps| - 1], LINE)
  }

  lemma {:induction false} LinesArePieces(text: string)
    requires NulFree(text)
    ensures Lines(text) == Pieces(text, LINE)
    ensures forall i :: 0 <= i < |Pieces(text, LINE)| ==> NulFree(Pieces(text, LINE)[i])
  {
    var ps := Pieces(text, LINE);
    ConcatLacks(ps, '\0');
    forall i | 0 <= i < |ps| ensures CStr(ps[i]) == ps[i] {
      CStrWhole(ps[i]);
    }
  }

  /** Well-framed lines without NULs read back as themselves. */
  lemma {:induction false} LinesOfConcat(lines: seq<string>)
    requires Framed(lines, LINE)
    requires forall i :: 0 <= i < |lines| ==> NulFree(lines[i])
    ensures NulFree(Concat(lines))
    ensures Pieces(Concat(lines), LINE) == lines && Lines(Concat(lines)) == lines
  {
    PiecesOfConcat(lines, LINE);
    ConcatLacks(lines, '\0');
    LinesArePieces(Concat(lines));
  }

  lemma {:induction false} PrintIsPiece(key: string, value: string)
    requires ValidKey(key) && ValidValue(value)
    ensures Piece(Print(key, value), LINE) && Full(Print(key, value), LINE)
    ensures NulFree(key) && NulFree(value) ==> NulFree(Print(key, value))
  {
    var p := Print(key, value);
    assert forall x :: 0 <= x < |key| ==> p[x] == key[x];
    assert forall x :: 0 <= x < |value| ==> p[|key| + 1 + x] == value[x];
  }

  /** No bytes are lost when these pieces are read as C strings, unless the key is on them. */
  ghost predicate NulsOnlyWith(ps: seq<string>, key: string) {
    forall i :: 0 <= i < |ps| ==> NulFree(ps[i]) || Has(Parse(CStr(ps[i])), key)
  }

  /** NUL bytes are on no line but those that hold the key. */
  ghost predicate NulsOnKeyLines(text: string, key: string) {
    NulsOnlyWith(Pieces(text, LINE), key)
  }

  lemma {:induction false} TextHasNoNuls(text: string, key: string)
    requires NulFree(text)
    ensures NulsOnKeyLines(text, key)
  {
    LinesArePieces(text);
  }

  /** Without the key on some line there are no NUL bytes at all. */
  lemma {:induction false} NoKeyNoNuls(text: string, key: string)
    requires NulsOnKeyLines(text, key) && key !in StoreOf(text)
    ensures NulFree(text)
  {
    hide Parse, Store;
    var ps := Pieces(text, LINE);
    StoreOnLine(Lines(text), key);
    assert forall i :: 0 <= i < |ps| ==> Lines(text)[i] == CStr(ps[i]);
    ConcatLacks(ps, '\0');
  }

  /** What `config_set` is called with. */
  ghost predicate Arguments(key: string, value: string) {
    NulFree(key) && NulFree(value) && ValidKey(key) && ValidValue(value)
  }

  /** The lines that are meant read back as such: NUL bytes are at most on lines with the key,
      and the file ends a line unless the key is already on one. */
  ghost predicate Rewritable(text: string, key: string, value: string) {
    Arguments(key, value) && NulsOnKeyLines(text, key) && (EndsLine(text) || key in StoreOf(text))
  }

  lemma {:induction false} RewriteFramed(ps: seq<string>, key: string, value: string)
    requires Framed(ps, LINE) && NulsOnlyWith(ps, key) && Arguments(key, value)
    ensures var r := Rewrite(CStrs(ps), key, value);
      && Framed(r, LINE)
      && (forall i :: 0 <= i < |r| ==> NulFree(r[i]))
      && (forall i :: 0 <= i < |r| && Full(ps[i], LINE) ==> Full(r[i], LINE))
  {
    hide Parse;
    PrintIsPiece(key, value);
    var p := Print(key, value);
    var r := Rewrite(CStrs(ps), key, value);
    forall i | 0 <= i < |ps|
      ensures Piece(r[i], LINE) && NulFree(r[i]) && (Full(ps[i], LINE) ==> Full(r[i], LINE))
    {
      if !Has(Parse(CStr(ps[i])), key) {
        CStrWhole(ps[i]);
      }
      assert r[i] == p || r[i] == ps[i];
    }
  }

  lemma {:induction false} AppendFramed(ps: seq<string>, p: string)
    requires Framed(ps, LINE) && Piece(p, LINE)
    requires ps != [] ==> Full(ps[|ps| - 1], LINE)
    ensures Framed(ps + [p], LINE)
  {
  }

  /** Lines that are written are pieces again, when an appended entry starts a new one. */
  lemma {:induction false} SetLinesFramed(ps: seq<string>, key: string, value: string)
    requires Framed(ps, LINE) && NulsOnlyWith(ps, key) && Arguments(key, value)
    requires ps == [] || Full(ps[|ps| - 1], LINE) || OnSomeLine(CStrs(ps), key)
    ensures var out := SetLines(CStrs(ps), key, value);
      && Framed(out, LINE)
      && (forall i :: 0 <= i < |out| ==> NulFree(out[i]))
      && (ps == [] || Full(ps[|ps| - 1], LINE) ==> out == [] || Full(out[|out| - 1], LINE))
  {
    hide Parse, CStr;
    PrintIsPiece(key, value);
    RewriteFramed(ps, key, value);
    var r := Rewrite(CStrs(ps), key, value);
    if OnSomeLine(CStrs(ps), key) {
      assert SetLines(CStrs(ps), key, value) == r;
    } else {
      AppendFramed(r, Print(key, value));
    }
  }

  /** The text that is meant reads back as exactly the lines that were meant to be written, and
      a file that ends a line stays one. */
  lemma {:induction false} LinesOfSetText(text: string, key: string, value: string)
    requires Rewritable(text, key, value)
    ensures Lines(SetText(text, key, value)) == SetLines(Lines(text), key, value)
    ensures Pieces(SetText(text, key, value), LINE) == SetLines(Lines(text), key, value)
    ensures NulFree(SetText(text, key, value))
    ensures EndsLine(text) ==> EndsLine(SetText(text, key, value))
  {
    hide Parse, Store;
    StoreOnLine(Lines(text), key);
    SetLinesFramed(Pieces(text, LINE), key, value);
    LinesOfConcat(SetLines(Lines(text), key, value));
  }

  /** A text file whose last line is finished. */
  ghost predicate Clean(text: string) {
    NulFree(text) && EndsLine(text)
  }

  lemma {:induction false} SetTextIsUpdate(text: string, key: string, value: string)
    requires Rewritable(text, key, value) && Trimmed(key)
    ensures StoreOf(SetText(text, key, value)) == StoreOf(text)[key := Trim(value)]
  {
    LinesOfSetText(text, key, value);
    StoreOfSetLines(Lines(text), key, value);
  }

  lemma {:induction false} SetLinesOfPieces(ps: seq<string>, key: string, value: string)
    requires NulsOnlyWith(ps, key)
    ensures var out := SetLines(CStrs(ps), key, value);
      && |out| == |ps| + (if OnSomeLine(CStrs(ps), key) then 0 else 1)
      && (forall i :: 0 <= i < |ps| ==> out[i] == if Has(Parse(CStr(ps[i])), key) then Print(key, value) else ps[i])
      && (!OnSomeLine(CStrs(ps), key) ==> out[|ps|] == Print(key, value))
  {
    hide Parse, CStr, Print;
    var out, r := SetLines(CStrs(ps), key, value), Rewrite(CStrs(ps), key, value);
    forall i | 0 <= i < |ps| ensures out[i] == if Has(Parse(CStr(ps[i])), key) then Print(key, value) else ps[i] {
      assert out[i] == r[i];
      if !Has(Parse(CStr(ps[i])), key) {
        CStrWhole(ps[i]);
      }
    }
  }

  /** Whatever the file holds, what is written holds no NUL. */
  lemma {:induction false} SetTextNulFree(text: string, key: string, value: string)
    requires Arguments(key, value)
    ensures NulFree(SetText(text, key, value))
  {
    hide Parse;
    PrintIsPiece(key, value);
    var lines, out := Lines(text), SetLines(Lines(text), key, value);
    forall i | 0 <= i < |out| ensures NulFree(out[i]) {
      if i < |lines| && out[i] != Print(key, value) {
        IndexOfFinds(Pieces(text, LINE)[i], '\0');
        assert out[i] == lines[i];
      }
    }
    ConcatLacks(out, '\0');
  }

  /** All lines without the key stay. */
  ghost predicate OthersStay(before: seq<string>, after: seq<string>, key: string) {
    forall i :: 0 <= i < |before| && !Has(Parse(CStr(before[i])), key) ==> i < |after| && after[i] == before[i]
  }

  /** Every line ends in a newline, so none is longer than the buffer. */
  ghost predicate NewlineEnded(ps: seq<string>) {
    forall i :: 0 <= i < |ps| ==> 0 < |ps[i]| && ps[i][|ps[i]| - 1] == '\n'
  }

  lemma {:induction false} RewriteTwice(lines: seq<string>, key: string, first: string, second: string)
    requires Writable(key, first)
    ensures Rewrite(Rewrite(lines, key, first), key, second) == Rewrite(lines, key, second)
    ensures OnSomeLine(Rewrite(lines, key, first), key) <==> OnSomeLine(lines, key)
  {
    ParseOfPrint(key, first);
    var once := Rewrite(lines, key, first);
    assert forall i :: 0 <= i < |lines| ==> Has(Parse(once[i]), key) == Has(Parse(lines[i]), key);
  }

  lemma {:induction false} SetLinesTwice(lines: seq<string>, key: string, first: string, second: string)
    requires Writable(key, first)
    ensures SetLines(SetLines(lines, key, first), key, second) == SetLines(lines, key, second)
  {
    RewriteTwice(lines, key, first, second);
    var r, p := Rewrite(lines, key, first), Print(key, first);
    if OnSomeLine(lines, key) {
      assert SetLines(lines, key, first) == r;
    } else {
      var once := r + [p];
      ParseOfPrint(key, first);
      assert Has(Parse(once[|lines|]), key);
      assert Rewrite(once, key, second) == Rewrite(r, key, second) + [Print(key, second)];
    }
  }
}
