/** What `config_set` makes of the text of the configuration file, for keys of every length:
    a key that fills the parser's buffer may not compare equal, and is then not found. */
module ConfigWrite {
  import opened CText
  import opened Options
  import opened ConfigLine
  import opened ConfigText

  /** The text that `config_set` writes to the temporary file. */
  ghost function Written(text: string, key: string, value: string, st: Stack): string {
    if Findable(key, st) then SetText(text, key, value) else Concat(Lines(text) + [Print(key, value)])
  }

  /** The lines with the key, if there are any, are found. */
  ghost predicate Finds(text: string, key: string, st: Stack) {
    Findable(key, st) || key !in StoreOf(text)
  }

  /** The arguments and the file that `config_set` is made for, by what a caller can check:
      NUL bytes are at most on lines that are found to have the key, and the file ends a line
      unless there is one. */
  ghost predicate Settable(text: string, key: string, value: string, st: Stack) {
    Arguments(key, value) && if Findable(key, st) then Rewritable(text, key, value) else Clean(text)
  }

  lemma {:induction false} RewriteNone(lines: seq<string>, key: string, value: string)
    requires !OnSomeLine(lines, key)
    ensures Rewrite(lines, key, value) == lines && SetLines(lines, key, value) == lines + [Print(key, value)]
  {
    hide Parse, Print;
    assert Rewrite(lines, key, value) == lines;
  }

  lemma {:induction false} WrittenWhenFound(text: string, key: string, value: string, st: Stack)
    requires Finds(text, key, st)
    ensures Written(text, key, value, st) == SetText(text, key, value)
  {
    hide Parse, Print, Store;
    StoreOnLine(Lines(text), key);
    if !Findable(key, st) {
      RewriteNone(Lines(text), key, value);
    }
  }

  lemma {:induction false} CleanRewritable(text: string, key: string, value: string)
    requires Clean(text) && Arguments(key, value)
    ensures Rewritable(text, key, value)
  {
    TextHasNoNuls(text, key);
  }

  /** An entry added to a clean file is one more line. */
  lemma {:induction false} AddedLines(text: string, key: string, value: string)
    requires Clean(text) && Arguments(key, value)
    ensures var added := Lines(text) + [Print(key, value)];
      && Pieces(Concat(added), LINE) == added && Lines(Concat(added)) == added
      && Clean(Concat(added)) && Concat(added) == text + Print(key, value)
  {
    hide Pieces, CStr;
    var lines, p := Lines(text), Print(key, value);
    LinesArePieces(text);
    PrintIsPiece(key, value);
    AppendFramed(lines, p);
    LinesOfConcat(lines + [p]);
    ConcatOne(lines, p);
  }

  /** The lines that are written. */
  ghost function WrittenLines(lines: seq<string>, key: string, value: string, st: Stack): seq<string> {
    if Findable(key, st) then SetLines(lines, key, value) else lines + [Print(key, value)]
  }

  /** The new file reads back as exactly the lines that were written, and a file that ends a
      line stays one. */
  lemma {:induction false} LinesOfWritten(text: string, key: string, value: string, st: Stack)
    requires Settable(text, key, value, st)
    ensures var after := Written(text, key, value, st);
      && Pieces(after, LINE) == WrittenLines(Lines(text), key, value, st) && Lines(after) == Pieces(after, LINE)
      && NulFree(after) && (EndsLine(text) ==> EndsLine(after))
  {
    hide Lines, SetText, SetLines, Pieces;
    if Findable(key, st) {
      LinesOfSetText(text, key, value);
    } else {
      AddedLines(text, key, value);
    }
  }

  /** A key that is added again counts for nothing: the first line decides. */
  lemma {:induction false} StoreOfAdded(text: string, key: string, value: string)
    requires Clean(text) && Arguments(key, value) && Trimmed(key)
    ensures StoreOf(Concat(Lines(text) + [Print(key, value)])) ==
      if key in StoreOf(text) then StoreOf(text) else StoreOf(text)[key := Trim(value)]
  {
    hide Parse, Store, Pieces, Concat;
    var lines, p := Lines(text), Print(key, value);
    AddedLines(text, key, value);
    ParseOfPrint(key, value);
    assert Meanings(lines + [p]) == Meanings(lines) + [Some(Entry(key, Trim(value)))];
    StoreAppend(Meanings(lines), Entry(key, Trim(value)));
  }

  /** On raw text with duplicates, comments and malformed lines `config_set` is a map update,
      unless lines with the key are not found: then the map stays. */
  lemma {:induction false} SetIsUpdate(text: string, key: string, value: string, st: Stack)
    requires Settable(text, key, value, st) && Trimmed(key)
    ensures StoreOf(Written(text, key, value, st)) ==
      if Finds(text, key, st) then StoreOf(text)[key := Trim(value)] else StoreOf(text)
  {
    hide StoreOf, SetText, Lines, Concat;
    if Findable(key, st) {
      SetTextIsUpdate(text, key, value);
    } else {
      StoreOfAdded(text, key, value);
    }
  }

  /** Lines with other keys, comments, blanks and malformed lines stay where they are,
      byte for byte; every line that is found to have the key now is the new entry. */
  lemma {:induction false} SetKeepsOtherLines(text: string, key: string, value: string, st: Stack)
    requires Settable(text, key, value, st)
    ensures var before, after := Pieces(text, LINE), Pieces(Written(text, key, value, st), LINE);
      var found := Findable(key, st) && key in StoreOf(text);
      && |after| == |before| + (if found then 0 else 1)
      && (forall i :: 0 <= i < |before| ==>
            after[i] == if Findable(key, st) && Has(Parse(CStr(before[i])), key) then Print(key, value) else before[i])
      && (!found ==> after[|before|] == Print(key, value))
  {
    hide Parse, Written, Pieces, CStr, Store, Print, SetLines, Findable;
    LinesOfWritten(text, key, value, st);
    StoreOnLine(Lines(text), key);
    if Findable(key, st) {
      SetLinesOfPieces(Pieces(text, LINE), key, value);
    } else {
      LinesArePieces(text);
    }
  }

  /** `config_set` keeps every line short and finished. */
  lemma {:induction false} NewlineEndedKept(text: string, key: string, value: string, st: Stack)
    requires Settable(text, key, value, st)
    requires NewlineEnded(Pieces(text, LINE))
    ensures NewlineEnded(Pieces(Written(text, key, value, st), LINE))
  {
    hide Parse, Written, StoreOf, Pieces, CStr, Findable, Settable;
    SetKeepsOtherLines(text, key, value, st);
    var after, p := Pieces(Written(text, key, value, st), LINE), Print(key, value);
    assert p[|p| - 1] == '\n';
    forall i | 0 <= i < |after| ensures 0 < |after[i]| && after[i][|after[i]| - 1] == '\n' {
      assert after[i] == p || after[i] == Pieces(text, LINE)[i];
    }
  }

  // ---- two writes ----

  /** Each line with the key is this entry. */
  ghost predicate AllAre(lines: seq<string>, key: string, value: string) {
    forall i :: 0 <= i < |lines| && Has(Parse(lines[i]), key) ==> lines[i] == Print(key, value)
  }

  /** Setting leaves the lines alone exactly if they have the entry already. */
  lemma {:induction false} SameLines(lines: seq<string>, key: string, value: string)
    ensures SetLines(lines, key, value) == lines <==> OnSomeLine(lines, key) && AllAre(lines, key, value)
  {
    hide Parse, Print;
    var r := Rewrite(lines, key, value);
    if OnSomeLine(lines, key) {
      assert SetLines(lines, key, value) == r;
      if AllAre(lines, key, value) {
        assert r == lines;
      } else {
        var i :| 0 <= i < |lines| && Has(Parse(lines[i]), key) && lines[i] != Print(key, value);
        assert r[i] != lines[i];
      }
    }
  }

  lemma {:induction false} UntrimmedNowhere(lines: seq<string>, key: string)
    requires !Trimmed(key)
    ensures !OnSomeLine(lines, key)
  {
    forall i | 0 <= i < |lines| ensures !Has(Parse(lines[i]), key) {
      ParseTrimmed(lines[i]);
    }
  }

  lemma {:induction false} ConcatLonger(lines: seq<string>, key: string, value: string)
    ensures |Concat(lines + [Print(key, value)])| > |Concat(lines)|
  {
    ConcatOne(lines, Print(key, value));
  }

  lemma {:induction false} UntrimmedTwice(lines: seq<string>, key: string, first: string, second: string)
    requires !Trimmed(key)
    ensures var once := lines + [Print(key, first)];
      && SetLines(lines, key, first) == once && SetLines(lines, key, second) == lines + [Print(key, second)]
      && SetLines(once, key, second) == once + [Print(key, second)]
      && |Concat(once + [Print(key, second)])| > |Concat(lines + [Print(key, second)])|
  {
    hide Parse, Print;
    var once := lines + [Print(key, first)];
    UntrimmedNowhere(lines, key);
    UntrimmedNowhere(once, key);
    RewriteNone(lines, key, first);
    RewriteNone(lines, key, second);
    RewriteNone(once, key, second);
    ConcatLonger(lines, key, first);
    ConcatOne(once, Print(key, second));
    ConcatOne(lines, Print(key, second));
  }

  lemma {:induction false} MissedTwice(lines: seq<string>, key: string, first: string, second: string)
    requires Writable(key, first) && OnSomeLine(lines, key)
    ensures |Concat(SetLines(lines + [Print(key, first)], key, second))| > |Concat(SetLines(lines, key, second))|
  {
    hide Parse, Print;
    var once := lines + [Print(key, first)];
    ParseOfPrint(key, first);
    assert once[|lines|] == Print(key, first) && Has(Parse(once[|lines|]), key);
    assert Rewrite(once, key, second) == Rewrite(lines, key, second) + [Print(key, second)];
    assert SetLines(once, key, second) == Rewrite(once, key, second);
    assert SetLines(lines, key, second) == Rewrite(lines, key, second);
    ConcatLonger(Rewrite(lines, key, second), key, second);
  }

  /** The second of two writes finds the key. */
  lemma {:induction false} TwiceFound(text: string, key: string, first: string, second: string, st: Stack)
    requires Settable(text, key, first, st)
    ensures SetText(Written(text, key, first, st), key, second) == SetText(text, key, second)
      <==> Trimmed(key) && Finds(text, key, st)
  {
    hide Parse, Print, Pieces, Store, SetLines, Trimmed;
    var lines, once := Lines(text), WrittenLines(Lines(text), key, first, st);
    LinesOfWritten(text, key, first, st);
    StoreOnLine(lines, key);
    if !Trimmed(key) {
      UntrimmedTwice(lines, key, first, second);
    } else if Finds(text, key, st) {
      if !Findable(key, st) {
        RewriteNone(lines, key, first);
      }
      SetLinesTwice(lines, key, first, second);
    } else {
      MissedTwice(lines, key, first, second);
    }
  }

  lemma {:induction false} SameEnd(a: string, b: string, p: string)
    ensures a + p == b + p <==> a == b
  {
    if a + p == b + p {
      assert a == (a + p)[..|a|] && b == (b + p)[..|b|];
    }
  }

  /** The second of two writes does not find the key. */
  lemma {:induction false} TwiceAdded(text: string, key: string, first: string, second: string, st: Stack)
    requires Clean(text) && Arguments(key, first)
    ensures Concat(Lines(Written(text, key, first, st)) + [Print(key, second)]) == Concat(Lines(text) + [Print(key, second)])
      <==> Findable(key, st) && key in StoreOf(text) && AllAre(Lines(text), key, first)
  {
    hide Parse, Print, Pieces, Store, SetLines, AllAre, OnSomeLine;
    var lines, once := Lines(text), WrittenLines(Lines(text), key, first, st);
    var p := Print(key, second);
    CleanRewritable(text, key, first);
    LinesOfWritten(text, key, first, st);
    LinesArePieces(text);
    StoreOnLine(lines, key);
    SameLines(lines, key, first);
    ConcatOne(lines, p);
    ConcatOne(once, p);
    SameEnd(Concat(once), Concat(lines), p);
    ConcatLonger(lines, key, first);
    assert Pieces(Concat(once), LINE) == once && Pieces(Concat(lines), LINE) == lines;
  }

  /** The last write wins, byte for byte, if and only if either it finds the key and so did the
      first one, if it was there; or it does not, and the first one changed nothing. In
      particular a repeated write changes nothing more exactly if the key is found. */
  lemma {:induction false} LastWriteWins(text: string, key: string, first: string, second: string, one: Stack, two: Stack)
    requires Settable(text, key, first, one) && (Findable(key, two) || Clean(text))
    ensures Written(Written(text, key, first, one), key, second, two) == Written(text, key, second, two) <==>
      if Findable(key, two) then Trimmed(key) && Finds(text, key, one)
      else Findable(key, one) && key in StoreOf(text) && AllAre(Lines(text), key, first)
  {
    hide SetText, Lines, Concat, StoreOf, Findable, AllAre, Trimmed;
    if Findable(key, two) {
      TwiceFound(text, key, first, second, one);
    } else {
      TwiceAdded(text, key, first, second, one);
    }
  }
}
