/** Exactly when `config_set` is a map update. It is not on every file: an entry
    appended to a file whose last line is unfinished joins that line. */
module ConfigExact {
  import opened CText
  import opened Options
  import opened ConfigLine
  import opened ConfigText
  import opened ConfigWrite

  /** The line that the file ends in without finishing it. */
  function Tail(text: string): string {
    var ps := Pieces(text, LINE);
    if ps == [] then [] else ps[|ps| - 1]
  }

  /** The length of the value without the blanks at its end. */
  function Kept(value: string): nat {
    DropBlanks(value, |value|)
  }

  /** The unfinished last line is blank and leaves room for the entry in one `fgets`. */
  ghost predicate BlankTailFits(text: string, key: string, value: string) {
    var tail := Tail(text);
    Blank(tail, 0, |tail|) && |tail| + |key| + 1 + Kept(value) <= LINE
  }

  /** An unfinished line: shorter than the buffer and without a newline. */
  ghost predicate Unfinished(tail: string) {
    0 < |tail| < LINE && Lacks(tail, |tail|, '\n')
  }

  lemma {:induction false} TailUnfinished(text: string)
    requires !EndsLine(text)
    ensures Unfinished(Tail(text))
  {
    var ps := Pieces(text, LINE);
    assert Piece(ps[|ps| - 1], LINE);
  }

  /** What `fgets` makes of the unfinished line joined by an entry: one piece, or two. */
  function Joined(tail: string, entry: string): seq<string> {
    var w := tail + entry;
    if |w| <= LINE then [w] else [w[..LINE], w[LINE..]]
  }

  lemma {:induction false} JoinedPieces(tail: string, key: string, value: string)
    requires Unfinished(tail) && ValidKey(key) && ValidValue(value)
    ensures var js := Joined(tail, Print(key, value)); Framed(js, LINE) && Concat(js) == tail + Print(key, value)
  {
    var entry := Print(key, value);
    var w := tail + entry;
    PrintIsPiece(key, value);
    assert forall x :: 0 <= x < |tail| ==> w[x] == tail[x];
    assert forall x :: |tail| <= x < |w| ==> w[x] == entry[x - |tail|];
    var js := Joined(tail, entry);
    if |w| <= LINE {
      assert Concat([w]) == w + Concat([w][1..]);
    } else {
      assert js[1..] == [w[LINE..]];
      assert w[..LINE] + w[LINE..] == w;
      assert Concat(js[1..]) == w[LINE..] + Concat(js[1..][1..]);
    }
  }

  lemma {:induction false} ConcatJoined(qs: seq<string>, tail: string, entry: string, js: seq<string>)
    requires Concat(js) == tail + entry
    ensures Concat(qs + [tail] + [entry]) == Concat(qs + js)
  {
    ConcatOne(qs + [tail], entry);
    ConcatOne(qs, tail);
    ConcatAppend(qs, js);
    assert Concat(qs) + tail + entry == Concat(qs) + (tail + entry);
  }

  lemma {:induction false} FramedAppend(qs: seq<string>, js: seq<string>)
    requires Framed(qs, LINE) && Framed(js, LINE)
    requires forall i :: 0 <= i < |qs| ==> Full(qs[i], LINE)
    ensures Framed(qs + js, LINE)
  {
  }

  lemma {:induction false} JoinedNulFree(tail: string, key: string, value: string)
    requires NulFree(tail) && NulFree(Print(key, value))
    ensures forall i :: 0 <= i < |Joined(tail, Print(key, value))| ==> NulFree(Joined(tail, Print(key, value))[i])
  {
    var entry := Print(key, value);
    var w := tail + entry;
    assert forall x :: 0 <= x < |tail| ==> w[x] == tail[x];
    assert forall x :: |tail| <= x < |w| ==> w[x] == entry[x - |tail|];
  }

  lemma {:induction false} LinesOfJoined(qs: seq<string>, tail: string, key: string, value: string, js: seq<string>)
    requires Framed(qs, LINE) && (forall i :: 0 <= i < |qs| ==> NulFree(qs[i]) && Full(qs[i], LINE))
    requires Unfinished(tail) && NulFree(tail) && NulFree(key) && NulFree(value) && ValidKey(key) && ValidValue(value)
    requires js == Joined(tail, Print(key, value))
    ensures Lines(Concat(qs + js)) == qs + js
  {
    PrintIsPiece(key, value);
    JoinedPieces(tail, key, value);
    JoinedNulFree(tail, key, value);
    FramedAppend(qs, js);
    forall i | 0 <= i < |qs + js| ensures NulFree((qs + js)[i]) {
      assert (qs + js)[i] == if i < |qs| then qs[i] else js[i - |qs|];
    }
    LinesOfConcat(qs + js);
  }

  lemma {:induction false} LinesBeforeTail(text: string, qs: seq<string>)
    requires NulFree(text) && qs + [Tail(text)] == Pieces(text, LINE)
    ensures Framed(qs, LINE) && NulFree(Tail(text))
    ensures forall i :: 0 <= i < |qs| ==> NulFree(qs[i]) && Full(qs[i], LINE)
  {
    LinesArePieces(text);
    var ps := Pieces(text, LINE);
    assert ps[|qs|] == Tail(text);
    forall i | 0 <= i < |qs| ensures Piece(qs[i], LINE) && NulFree(qs[i]) && Full(qs[i], LINE) {
      assert ps[i] == qs[i];
    }
  }

  /** Adding an entry to a file with an unfinished last line: all other lines stay, and the
      last one is joined by the entry. */
  lemma {:induction false} LinesOfAdded(text: string, key: string, value: string, qs: seq<string>, js: seq<string>)
    requires NulFree(text) && !EndsLine(text) && Arguments(key, value)
    requires qs + [Tail(text)] == Pieces(text, LINE) && js == Joined(Tail(text), Print(key, value))
    ensures Lines(Concat(Lines(text) + [Print(key, value)])) == qs + js
  {
    LinesArePieces(text);
    LinesBeforeTail(text, qs);
    TailUnfinished(text);
    JoinedPieces(Tail(text), key, value);
    ConcatJoined(qs, Tail(text), Print(key, value), js);
    LinesOfJoined(qs, Tail(text), key, value, js);
  }

  lemma {:induction false} LinesOfAppend(text: string, key: string, value: string, qs: seq<string>, js: seq<string>)
    requires NulFree(text) && !EndsLine(text) && Arguments(key, value) && key !in StoreOf(text)
    requires qs + [Tail(text)] == Pieces(text, LINE) && js == Joined(Tail(text), Print(key, value))
    ensures Lines(SetText(text, key, value)) == qs + js
  {
    hide Parse, Store, Pieces;
    StoreOnLine(Lines(text), key);
    RewriteNone(Lines(text), key, value);
    LinesOfAdded(text, key, value, qs, js);
  }

  /** The map of one line, or of two. */
  function MapOf(m: Meaning): map<string, string> {
    match m
    case None => map[]
    case Some(Entry(k, v)) => map[k := v]
  }

  lemma {:induction false} StoreOfTwo(a: Meaning, b: Meaning)
    ensures Store([a]) == MapOf(a)
    ensures Store([a, b]) == MapOf(b) + MapOf(a)
  {
    assert [a][1..] == [] && [b][1..] == [] && [a, b][1..] == [b];
  }

  /** The map of a joined line. */
  ghost function JoinedMap(w: string): map<string, string> {
    if |w| <= LINE then MapOf(Parse(w)) else MapOf(Parse(w[LINE..])) + MapOf(Parse(w[..LINE]))
  }

  lemma {:induction false} StoreOfJoined(tail: string, entry: string)
    ensures Store(Meanings(Joined(tail, entry))) == JoinedMap(tail + entry)
  {
    var w := tail + entry;
    if |w| <= LINE {
      StoreOfTwo(Parse(w), None);
      assert Meanings([w]) == [Parse(w)];
    } else {
      StoreOfTwo(Parse(w[..LINE]), Parse(w[LINE..]));
      assert Meanings([w[..LINE], w[LINE..]]) == [Parse(w[..LINE]), Parse(w[LINE..])];
    }
  }

  // ---- the blank tail that fits ----

  lemma {:induction false} BlankMeansNothing(line: string)
    requires Blank(line, 0, |line|)
    ensures Parse(line) == None
  {
    TrimIs(line, 0, 0);
  }

  /** Cutting a value anywhere after its last non-blank leaves what `Trim` keeps; cutting
      it before leaves less. */
  lemma {:induction false} TrimCut(value: string, c: nat)
    requires c <= |value|
    ensures Kept(value) <= c ==> Trim(value[..c]) == Trim(value)
    ensures c < Kept(value) ==> |Trim(value[..c])| < |Trim(value)|
  {
    DropBlanksIs(value, |value|);
    var m := Kept(value);
    var i, j := TrimSpan(value);
    var a, b := TrimSpan(value[..c]);
    if m <= c {
      if i < j {
        assert j == m;
        TrimIs(value[..c], i, j);
        assert value[..c][i..j] == value[i..j];
      } else {
        assert m == 0;
        TrimIs(value[..c], 0, 0);
      }
    } else {
      assert j == m;
      assert a < b ==> value[..c][a] == value[a] && i <= a;
    }
  }

  /** The first piece of the joined line, when the entry's `=` is still in it. */
  lemma {:induction false} BlankTailFirst(tail: string, key: string, value: string, first: string, c: nat)
    requires Blank(tail, 0, |tail|) && Writable(key, value) && c <= |value|
    requires first == tail + key + "=" + value[..c] || (c == |value| && first == tail + Print(key, value))
    ensures Parse(first) == Some(Entry(key, Trim(value[..c])))
  {
    var n := |tail| + |key|;
    assert first[|tail|..n] == key && first[n] == '=' && first[n + 1..n + 1 + c] == value[..c];
    assert forall x :: 0 <= x < |tail| ==> first[x] == tail[x];
    assert Holds(first, |tail|, key, value[..c]);
    ParseOfHolds(first, |tail|, key, value[..c]);
  }

  lemma {:induction false} BlankTailSplit(tail: string, key: string, value: string, w: string)
    requires Unfinished(tail) && Blank(tail, 0, |tail|) && Writable(key, value)
    requires |tail| + |key| + 1 + Kept(value) <= LINE < |w| && w == tail + Print(key, value)
    ensures Parse(w[..LINE]) == Some(Entry(key, Trim(value))) && Parse(w[LINE..]) == None
  {
    hide Parse, Trim;
    var c := LINE - |tail| - |key| - 1;
    var rest := w[LINE..];
    assert rest == value[c..] + "\n";
    DropBlanksIs(value, |value|);
    assert Blank(rest, 0, |rest|) by {
      assert forall x :: 0 <= x < |value| - c ==> rest[x] == value[c + x];
    }
    BlankMeansNothing(rest);
    TrimCut(value, c);
    BlankTailFirst(tail, key, value, w[..LINE], c);
  }

  lemma {:induction false} BlankTailWorks(tail: string, key: string, value: string)
    requires Unfinished(tail) && Blank(tail, 0, |tail|) && Writable(key, value)
    requires |tail| + |key| + 1 + Kept(value) <= LINE
    ensures JoinedMap(tail + Print(key, value)) == map[key := Trim(value)]
  {
    hide Parse;
    var w := tail + Print(key, value);
    if |w| <= LINE {
      BlankTailFirst(tail, key, value, w, |value|);
      assert value[..|value|] == value;
    } else {
      BlankTailSplit(tail, key, value, w);
    }
  }

  // ---- everything else fails ----

  /** A line has room for the key, the `=` and the value it holds. */
  lemma {:induction false} ParseFits(line: string)
    ensures Parse(line).Some? ==> |Parse(line).value.key| + 1 + |Parse(line).value.value| <= |Trim(line)|
  {
    var t := Trim(line);
    var n := IndexOf(t, '=');
    if n < |t| {
      var a, b := TrimSpan(t[..n]);
      var c, d := TrimSpan(t[n + 1..]);
    }
  }

  /** `p` is the unfinished line followed by as much of the entry as there is room for. */
  ghost predicate Extends(p: string, tail: string, key: string, value: string) {
    && |tail| <= |p| <= |tail| + |Print(key, value)|
    && (forall x :: 0 <= x < |tail| ==> p[x] == tail[x])
    && (forall x :: |tail| <= x < |p| ==> p[x] == Print(key, value)[x - |tail|])
  }

  lemma {:induction false} CoreOfPrefix(tail: string, p: string, a: nat, b: nat, i: nat, j: nat)
    requires |tail| <= |p| && (forall x :: 0 <= x < |tail| ==> p[x] == tail[x])
    requires Core(p, a, b) && Core(tail, i, j) && a < |tail| && a < b
    ensures i == a && i < j <= b
  {
    assert tail[a] == p[a];
    assert i < j ==> p[i] == tail[i] && p[j - 1] == tail[j - 1];
  }

  /** A value that is invalid stays so when it goes on. */
  lemma {:induction false} ValueStaysInvalid(short: string, long: string)
    requires short <= long
    requires short != [] ==> !IsSpace(short[|short| - 1])
    requires long != [] ==> !IsSpace(long[|long| - 1])
    ensures ValidValue(Trim(long)) ==> ValidValue(Trim(short))
  {
    var i, j := TrimSpan(short);
    if i < j {
      assert j == |short|;
      var x, y := TrimSpan(long);
      assert long[i] == short[i];
      assert x == i && y == |long|;
      assert forall z :: 0 <= z < j - i ==> Trim(short)[z] == Trim(long)[z];
    }
  }

  lemma {:induction false} SameKeyShorterValue(tail: string, p: string, a: nat, n: nat, j: nat, b: nat)
    requires a <= n < j <= b <= |p| && j <= |tail| <= |p| && (forall x :: 0 <= x < |tail| ==> p[x] == tail[x])
    requires n + 1 < j ==> !IsSpace(tail[j - 1])
    requires n + 1 < b ==> !IsSpace(p[b - 1])
    ensures Trim(tail[a..n]) == Trim(p[a..n])
    ensures ValidValue(Trim(p[n + 1..b])) ==> ValidValue(Trim(tail[n + 1..j]))
  {
    assert p[a..n] == tail[a..n];
    var short, long := tail[n + 1..j], p[n + 1..b];
    assert short == long[..|short|];
    ValueStaysInvalid(short, long);
  }

  /** The `=` is in the unfinished line, which has that key if the longer line does. */
  lemma {:induction false} EqualsInTail(tail: string, p: string, key: string, a: nat, n: nat, b: nat)
    requires |tail| <= |p| && (forall x :: 0 <= x < |tail| ==> p[x] == tail[x])
    requires Core(p, a, b) && a <= n < b && n < |tail|
    requires p[n] == '=' && p[a] != '#' && (forall x :: a <= x < n ==> p[x] != '=')
    requires Trim(p[a..n]) == key && ValidKey(key) && ValidValue(Trim(p[n + 1..b]))
    ensures Has(Parse(tail), key)
  {
    var i, j := TrimSpan(tail);
    CoreOfPrefix(tail, p, a, b, i, j);
    SameKeyShorterValue(tail, p, a, n, j, b);
    ParseAt(tail, a, n, j);
  }

  /** The `=` is the one in the entry, so that the key on the line is longer. */
  lemma {:induction false} LongerKey(tail: string, key: string, value: string, p: string, a: nat, n: nat)
    requires Writable(key, value) && Extends(p, tail, key, value)
    requires a < |tail| <= n < |p| && !IsSpace(p[a])
    requires p[n] == '=' && (forall x :: a <= x < n ==> p[x] != '=')
    ensures Trim(p[a..n]) != key
  {
    assert forall x :: |tail| <= x < |p| && x < |tail| + |key| ==> p[x] == key[x - |tail|];
    assert |tail| + |key| < |p| ==> p[|tail| + |key|] == '=';
    assert n == |tail| + |key|;
    var k := p[a..n];
    assert k[|k| - 1] == key[|key| - 1];
    TrimIs(k, 0, |k|);
  }

  lemma {:induction false} SplitKeepsKeyOut(tail: string, key: string, value: string, p: string, a: nat, n: nat, b: nat)
    requires !Has(Parse(tail), key) && Writable(key, value) && Extends(p, tail, key, value)
    requires Core(p, a, b) && a <= n < b && a < |tail|
    requires p[n] == '=' && p[a] != '#' && (forall x :: a <= x < n ==> p[x] != '=')
    ensures !Has(MakeEntry(Trim(p[a..n]), Trim(p[n + 1..b])), key)
  {
    if |tail| <= n {
      LongerKey(tail, key, value, p, a, n);
    } else if Trim(p[a..n]) == key && ValidValue(Trim(p[n + 1..b])) {
      EqualsInTail(tail, p, key, a, n, b);
    }
  }

  lemma {:induction false} CommentMeansNothing(p: string, a: nat, b: nat)
    requires Core(p, a, b) && a < b && p[a] == '#'
    ensures Parse(p) == None
  {
    TrimIs(p, a, b);
  }

  lemma {:induction false} NoEquals(p: string)
    requires Lacks(p, |p|, '=')
    ensures Parse(p) == None
  {
    var a, b := TrimSpan(p);
    var t := Trim(p);
    assert forall x :: 0 <= x < |t| ==> t[x] == p[a + x];
    IndexOfIs(t, '=', |t|);
  }

  /** Nothing that an unfinished, non-blank line without the key can be joined by makes it
      a line with the key. */
  lemma {:induction false} NonBlankKeepsKeyOut(tail: string, key: string, value: string, p: string)
    requires !Blank(tail, 0, |tail|) && !Has(Parse(tail), key)
    requires Writable(key, value) && Extends(p, tail, key, value)
    ensures !Has(Parse(p), key)
  {
    var a, b := TrimSpan(p);
    IndexOfFinds(p, '=');
    var n := IndexOf(p, '=');
    assert a < |tail|;
    if n == |p| {
      NoEquals(p);
    } else if p[a] == '#' {
      CommentMeansNothing(p, a, b);
    } else {
      ParseAt(p, a, n, b);
      SplitKeepsKeyOut(tail, key, value, p, a, n, b);
    }
  }

  lemma {:induction false} ShorterKey(key: string, value: string, c: nat, r: string)
    requires Writable(key, value) && 0 < c <= |key| && r == Print(key, value)[c..]
    ensures !Has(Parse(r), key)
  {
    var n := |key| - c;
    assert forall x :: 0 <= x < n ==> r[x] == key[c + x];
    assert r[n] == '=';
    var a, b := TrimSpan(r);
    assert a <= n < b;
    assert r[a] != '#';
    ParseAt(r, a, n, b);
    var x, y := TrimSpan(r[a..n]);
  }

  lemma {:induction false} ShorterLine(key: string, value: string, o: nat, r: string)
    requires Writable(key, value) && o <= |value| && r == Print(key, value)[|key| + 1 + o..]
    ensures Has(Parse(r), key) ==> |Parse(r).value.value| < |Trim(value)|
  {
    ParseFits(r);
    assert forall x :: 0 <= x < |value| - o ==> r[x] == value[o + x];
    var a, b := TrimSpan(r);
    var i, j := TrimSpan(value);
    assert a < b ==> i <= o + a && o + b <= j;
  }

  /** The second piece of a joined line cannot hold the new entry. */
  lemma {:induction false} SecondPieceFails(key: string, value: string, c: nat, r: string)
    requires Writable(key, value) && 0 < c < |Print(key, value)| && r == Print(key, value)[c..]
    ensures Has(Parse(r), key) ==> |Parse(r).value.value| < |Trim(value)|
  {
    if c <= |key| {
      ShorterKey(key, value, c, r);
    } else {
      ShorterLine(key, value, c - |key| - 1, r);
    }
  }

  lemma {:induction false} MapsMiss(a: Meaning, b: Meaning, key: string, v: string)
    requires Has(a, key) ==> |a.value.value| < |v|
    requires Has(b, key) ==> |b.value.value| < |v|
    ensures var s := MapOf(b) + MapOf(a); key in s ==> s[key] != v
    ensures var s := MapOf(a); key in s ==> s[key] != v
  {
  }

  lemma {:induction false} FirstPieceFails(tail: string, key: string, value: string, first: string)
    requires Unfinished(tail) && Writable(key, value) && !Has(Parse(tail), key)
    requires Blank(tail, 0, |tail|) ==> |tail| + |key| + 1 + Kept(value) > LINE
    requires LINE < |tail| + |Print(key, value)| && first == (tail + Print(key, value))[..LINE]
    ensures Has(Parse(first), key) ==> |Parse(first).value.value| < |Trim(value)|
  {
    var c := LINE - |tail|;
    assert first == tail + Print(key, value)[..c];
    if !Blank(tail, 0, |tail|) {
      NonBlankKeepsKeyOut(tail, key, value, first);
    } else if c <= |key| {
      assert forall x :: 0 <= x < |tail| ==> first[x] == tail[x];
      assert forall x :: |tail| <= x < |first| ==> first[x] == key[x - |tail|];
      NoEquals(first);
    } else {
      var d := c - |key| - 1;
      assert first == tail + key + "=" + value[..d];
      BlankTailFirst(tail, key, value, first, d);
      TrimCut(value, d);
    }
  }

  /** When the tail is not blank, or leaves no room, reading the joined line does not give
      the value that was set. */
  lemma {:induction false} JoinFails(tail: string, key: string, value: string)
    requires Unfinished(tail) && Writable(key, value) && !Has(Parse(tail), key)
    requires Blank(tail, 0, |tail|) ==> |tail| + |key| + 1 + Kept(value) > LINE
    ensures var s := JoinedMap(tail + Print(key, value)); key in s ==> s[key] != Trim(value)
  {
    hide Parse;
    var entry := Print(key, value);
    var w := tail + entry;
    if |w| <= LINE {
      NonBlankKeepsKeyOut(tail, key, value, w);
      MapsMiss(Parse(w), None, key, Trim(value));
    } else {
      FirstPieceFails(tail, key, value, w[..LINE]);
      assert w[LINE..] == entry[LINE - |tail|..];
      SecondPieceFails(key, value, LINE - |tail|, w[LINE..]);
      MapsMiss(Parse(w[..LINE]), Parse(w[LINE..]), key, Trim(value));
    }
  }

  // ---- the exact condition ----

  lemma {:induction false} StoreOfAppended(qs: seq<string>, js: seq<string>)
    ensures Store(Meanings(qs + js)) == Store(Meanings(js)) + Store(Meanings(qs))
  {
    hide Parse;
    assert Meanings(qs + js) == Meanings(qs) + Meanings(js);
    StoreConcat(Meanings(qs), Meanings(js));
  }

  /** The map before an append to a file with an unfinished last line. */
  lemma {:induction false} StoreBeforeAppend(text: string, key: string, qs: seq<string>)
    requires NulFree(text) && key !in StoreOf(text)
    requires qs + [Tail(text)] == Pieces(text, LINE)
    ensures key !in Store(Meanings(qs)) && !Has(Parse(Tail(text)), key)
    ensures StoreOf(text) == MapOf(Parse(Tail(text))) + Store(Meanings(qs))
  {
    var tail := Tail(text);
    LinesArePieces(text);
    StoreOfAppended(qs, [tail]);
    StoreOfTwo(Parse(tail), None);
    assert Meanings([tail]) == [Parse(tail)];
  }

  /** The map after it. */
  lemma {:induction false} StoreAfterAppend(text: string, key: string, value: string, qs: seq<string>)
    requires NulFree(text) && Arguments(key, value)
    requires !EndsLine(text) && key !in StoreOf(text)
    requires qs + [Tail(text)] == Pieces(text, LINE)
    ensures StoreOf(SetText(text, key, value)) == JoinedMap(Tail(text) + Print(key, value)) + Store(Meanings(qs))
  {
    var js := Joined(Tail(text), Print(key, value));
    LinesOfAppend(text, key, value, qs, js);
    StoreOfAppended(qs, js);
    StoreOfJoined(Tail(text), Print(key, value));
  }

  lemma {:induction false} UpdateByJoin(before: map<string, string>, joined: map<string, string>,
                                          m: map<string, string>, key: string, v: string)
    requires key !in m
    ensures before == map[] && joined == map[key := v] ==> joined + m == (before + m)[key := v]
    ensures joined + m == (before + m)[key := v] ==> key in joined && joined[key] == v
  {
    if joined + m == (before + m)[key := v] {
      assert key in joined + m && (joined + m)[key] == v;
    }
  }

  lemma {:induction false} AppendExactly(text: string, key: string, value: string)
    requires NulFree(text) && NulFree(key) && NulFree(value) && Writable(key, value)
    requires !EndsLine(text) && key !in StoreOf(text)
    ensures StoreOf(SetText(text, key, value)) == StoreOf(text)[key := Trim(value)] <==> BlankTailFits(text, key, value)
  {
    hide Parse, Store, SetText;
    var ps, tail := Pieces(text, LINE), Tail(text);
    var qs := ps[..|ps| - 1];
    StoreBeforeAppend(text, key, qs);
    StoreAfterAppend(text, key, value, qs);
    TailUnfinished(text);
    var m := Store(Meanings(qs));
    UpdateByJoin(MapOf(Parse(tail)), JoinedMap(tail + Print(key, value)), m, key, Trim(value));
    if BlankTailFits(text, key, value) {
      BlankMeansNothing(tail);
      BlankTailWorks(tail, key, value);
    } else {
      JoinFails(tail, key, value);
    }
  }

  lemma {:induction false} SetTextIsUpdateExactly(text: string, key: string, value: string)
    requires Arguments(key, value) && NulsOnKeyLines(text, key)
    ensures StoreOf(SetText(text, key, value)) == StoreOf(text)[key := Trim(value)]
      <==> Trimmed(key) && (EndsLine(text) || key in StoreOf(text) || BlankTailFits(text, key, value))
  {
    if !Trimmed(key) {
      if key in StoreOf(SetText(text, key, value)) {
        StoreTrimmed(Lines(SetText(text, key, value)), key);
      }
    } else if EndsLine(text) || key in StoreOf(text) {
      SetTextIsUpdate(text, key, value);
    } else {
      NoKeyNoNuls(text, key);
      AppendExactly(text, key, value);
    }
  }

  lemma {:induction false} KeyInStoreTrimmed(text: string, key: string)
    requires key in StoreOf(text)
    ensures Trimmed(key)
  {
    StoreTrimmed(Lines(text), key);
  }

  /** `config_set` acts as a map update, on a file without NULs outside the lines with the
      key, exactly when the key has no blanks around it and the file ends a line, or already
      has the key on one, or ends in a blank stretch with room for the entry; and, if the key
      is there and is not found, exactly when it has that value already. */
  lemma {:induction false} SetIsUpdateExactly(text: string, key: string, value: string, st: Stack)
    requires Arguments(key, value) && NulsOnKeyLines(text, key) && (Finds(text, key, st) || Clean(text))
    ensures StoreOf(Written(text, key, value, st)) == StoreOf(text)[key := Trim(value)] <==>
      if Finds(text, key, st) then
        Trimmed(key) && (EndsLine(text) || key in StoreOf(text) || BlankTailFits(text, key, value))
      else StoreOf(text)[key] == Trim(value)
  {
    hide StoreOf, SetText, BlankTailFits, EndsLine, Lines, Trim, Clean;
    if Finds(text, key, st) {
      WrittenWhenFound(text, key, value, st);
      SetTextIsUpdateExactly(text, key, value);
    } else {
      KeyInStoreTrimmed(text, key);
      SetIsUpdate(text, key, value, st);
      var m := StoreOf(text);
      assert m == m[key := Trim(value)] ==> m[key] == m[key := Trim(value)][key];
    }
  }

  // ---- what becomes of the other lines ----

  lemma {:induction false} TailHasNoKey(text: string, key: string)
    requires NulFree(text) && key !in StoreOf(text)
    ensures !Has(Parse(Tail(text)), key)
  {
    hide Parse, Pieces, Store;
    LinesArePieces(text);
    StoreOnLine(Lines(text), key);
    EmptyMeansNothing();
  }

  /** All lines without the key stay. */
  ghost predicate OthersStay(before: seq<string>, after: seq<string>, key: string) {
    forall i :: 0 <= i < |before| && !Has(Parse(CStr(before[i])), key) ==> i < |after| && after[i] == before[i]
  }

  lemma {:induction false} OthersHaveNoNuls(before: seq<string>, after: string, key: string)
    requires NulFree(after) && OthersStay(before, Pieces(after, LINE), key)
    ensures NulsOnlyWith(before, key)
  {
    hide Parse, Pieces;
    ConcatLacks(Pieces(after, LINE), '\0');
  }

  /** A joined line is not what it was. */
  lemma {:induction false} JoinedChanges(text: string, after: string, key: string, value: string, qs: seq<string>)
    requires NulFree(text) && !EndsLine(text) && Arguments(key, value) && NulFree(after)
    requires qs + [Tail(text)] == Pieces(text, LINE)
    requires Lines(after) == qs + Joined(Tail(text), Print(key, value))
    ensures OthersStay(Pieces(text, LINE), Pieces(after, LINE), key) <==> Has(Parse(Tail(text)), key)
  {
    hide Parse, Pieces;
    var tail, js := Tail(text), Joined(Tail(text), Print(key, value));
    TailUnfinished(text);
    LinesArePieces(text);
    LinesArePieces(after);
    assert |Print(key, value)| > 0;
    assert |js[0]| > |tail|;
    var before, now := Pieces(text, LINE), Pieces(after, LINE);
    assert before[|qs|] == tail && now[|qs|] == js[0];
    assert forall i :: 0 <= i < |qs| ==> before[i] == now[i];
    CStrWhole(tail);
  }

  lemma {:induction false} OthersOnPieces(text: string, key: string, value: string)
    requires Rewritable(text, key, value)
    ensures OthersStay(Pieces(text, LINE), Pieces(SetText(text, key, value), LINE), key)
  {
    hide Parse, SetText, Pieces, StoreOf, SetLines, CStr;
    LinesOfSetText(text, key, value);
    SetLinesOfPieces(Pieces(text, LINE), key, value);
  }

  lemma {:induction false} OthersAroundMeant(text: string, key: string, value: string)
    requires Arguments(key, value)
    ensures OthersStay(Pieces(text, LINE), Pieces(SetText(text, key, value), LINE), key)
      <==> NulsOnKeyLines(text, key) && (EndsLine(text) || key in StoreOf(text))
  {
    hide Parse, SetText, Pieces, StoreOf, OthersStay;
    SetTextNulFree(text, key, value);
    var before, after := Pieces(text, LINE), SetText(text, key, value);
    if OthersStay(before, Pieces(after, LINE), key) {
      OthersHaveNoNuls(before, after, key);
    }
    if NulsOnKeyLines(text, key) {
      if EndsLine(text) || key in StoreOf(text) {
        OthersOnPieces(text, key, value);
      } else {
        NoKeyNoNuls(text, key);
        var qs := before[..|before| - 1];
        assert qs + [Tail(text)] == before;
        LinesOfAppend(text, key, value, qs, Joined(Tail(text), Print(key, value)));
        JoinedChanges(text, after, key, value, qs);
        StoreBeforeAppend(text, key, qs);
      }
    }
  }

  /** A line that is joined by an entry that is not found may be one with the key. */
  lemma {:induction false} OthersAroundAdded(text: string, key: string, value: string)
    requires Arguments(key, value) && NulFree(text)
    ensures OthersStay(Pieces(text, LINE), Pieces(Concat(Lines(text) + [Print(key, value)]), LINE), key)
      <==> EndsLine(text) || Has(Parse(Tail(text)), key)
  {
    hide Parse, Pieces, CStr;
    var lines, p := Lines(text), Print(key, value);
    var after := Concat(lines + [p]);
    LinesArePieces(text);
    if EndsLine(text) {
      AddedLines(text, key, value);
    } else {
      PrintIsPiece(key, value);
      ConcatLacks(lines + [p], '\0');
      var qs := lines[..|lines| - 1];
      assert qs + [Tail(text)] == lines;
      LinesOfAdded(text, key, value, qs, Joined(Tail(text), p));
      JoinedChanges(text, after, key, value, qs);
    }
  }

  /** The lines without the key stay where they are, byte for byte, if and only if none of them
      holds a NUL byte and none is joined by the entry: the file ends a line, or the key is
      found, or the line that is joined has the key, too. */
  lemma {:induction false} OthersStayExactly(text: string, key: string, value: string, st: Stack)
    requires Arguments(key, value) && (Finds(text, key, st) || NulFree(text))
    ensures OthersStay(Pieces(text, LINE), Pieces(Written(text, key, value, st), LINE), key)
      <==> (NulsOnKeyLines(text, key)
        && (EndsLine(text) || if Findable(key, st) then key in StoreOf(text) else Has(Parse(Tail(text)), key)))
  {
    hide Parse, SetText, Pieces, Store, OthersStay, EndsLine, CStr, Concat;
    if Finds(text, key, st) {
      WrittenWhenFound(text, key, value, st);
      OthersAroundMeant(text, key, value);
      if !Findable(key, st) && NulsOnKeyLines(text, key) {
        NoKeyNoNuls(text, key);
        TailHasNoKey(text, key);
      }
    } else {
      TextHasNoNuls(text, key);
      OthersAroundAdded(text, key, value);
    }
  }

  // ---- NUL bytes on other lines ----

  lemma {:induction false} BeforeNul(p: string)
    requires Piece(p, LINE) && !NulFree(p)
    ensures var tail := CStr(p); |tail| < LINE && NulFree(tail) && (tail != [] ==> Unfinished(tail))
  {
    IndexOfFinds(p, '\0');
  }

  lemma {:induction false} TwoLines(p: string, entry: string)
    requires Piece(p, LINE) && Full(p, LINE) && Piece(entry, LINE) && NulFree(entry)
    ensures Lines(p + entry) == [CStr(p), entry]
  {
    ConcatOne([p], entry);
    ConcatOne([], p);
    assert Concat([p, entry]) == p + entry;
    PiecesOfConcat([p, entry], LINE);
    CStrWhole(entry);
  }

  lemma {:induction false} JoinedFull(tail: string, key: string, value: string)
    requires tail != [] ==> Unfinished(tail)
    requires NulFree(tail) && Arguments(key, value)
    ensures var js := Joined(tail, Print(key, value));
      && Framed(js, LINE) && Full(js[|js| - 1], LINE) && Concat(js) == tail + Print(key, value)
      && forall i :: 0 <= i < |js| ==> NulFree(js[i])
  {
    var js, entry := Joined(tail, Print(key, value)), Print(key, value);
    PrintIsPiece(key, value);
    JoinedNulFree(tail, key, value);
    if tail == [] {
      assert tail + entry == entry;
      assert |entry| <= LINE;
      ConcatOne([], entry);
    } else {
      JoinedPieces(tail, key, value);
    }
  }

  /** What is written for a line with a NUL, an entry, and a new entry reads back as that
      line joined by the entry, and the new entry. */
  lemma {:induction false} LinesOfNulJoin(tail: string, key: string, value: string, last: string)
    requires tail != [] ==> Unfinished(tail)
    requires NulFree(tail) && Arguments(key, value) && Piece(last, LINE) && NulFree(last)
    ensures Lines(Concat([tail, Print(key, value), last])) == Joined(tail, Print(key, value)) + [last]
  {
    var entry := Print(key, value);
    var js := Joined(tail, entry);
    JoinedFull(tail, key, value);
    ConcatJoined([], tail, entry, js);
    assert [] + [tail] + [entry] == [tail, entry] && [] + js == js;
    ConcatOne([tail, entry], last);
    ConcatOne(js, last);
    assert [tail, entry] + [last] == [tail, entry, last];
    AppendFramed(js, last);
    LinesOfConcat(js + [last]);
  }

  /** The map that a line with a NUL and an entry after it stand for, before and after
      another key is set. */
  lemma {:induction false} StoresAroundNul(p: string, key: string, value: string, k: string, v: string)
    requires Piece(p, LINE) && Full(p, LINE) && !NulFree(p)
    requires Arguments(key, value) && Trimmed(key) && Arguments(k, v) && Trimmed(k) && k != key
    requires !Has(Parse(CStr(p)), k)
    ensures var text, m := p + Print(key, value), map[k := Trim(v)];
      && StoreOf(text) == map[key := Trim(value)] + MapOf(Parse(CStr(p)))
      && StoreOf(SetText(text, k, v)) == m + JoinedMap(CStr(p) + Print(key, value))
  {
    hide Parse, Pieces, Store, CStr, JoinedMap;
    var tail, entry, last := CStr(p), Print(key, value), Print(k, v);
    BeforeNul(p);
    PrintIsPiece(key, value);
    PrintIsPiece(k, v);
    TwoLines(p, entry);
    ParseOfPrint(key, value);
    ParseOfPrint(k, v);
    assert Meanings([tail, entry]) == [Parse(tail), Parse(entry)];
    StoreOfTwo(Parse(tail), Parse(entry));
    assert Rewrite([tail, entry], k, v) == [tail, entry];
    assert SetLines([tail, entry], k, v) == [tail, entry, last];
    LinesOfNulJoin(tail, key, value, last);
    StoreOfAppended(Joined(tail, entry), [last]);
    assert Meanings([last]) == [Parse(last)];
    StoreOfTwo(Parse(last), None);
    StoreOfJoined(tail, entry);
  }

  lemma {:induction false} UpdateMissed(before: map<string, string>, joined: map<string, string>, key: string, x: string,
                                        k: string, v: string)
    requires key in before && before[key] == x && k != key
    requires key in joined ==> joined[key] != x
    ensures map[k := v] + joined != before[k := v]
  {
    var after := map[k := v] + joined;
    assert key in after ==> after[key] != x;
    assert key in before[k := v] && before[k := v][key] == x;
  }

  lemma {:induction false} JoinWorks(tail: string, key: string, value: string)
    requires tail != [] ==> Unfinished(tail)
    requires Blank(tail, 0, |tail|) && Writable(key, value) && |tail| + |key| + 1 + Kept(value) <= LINE
    ensures JoinedMap(tail + Print(key, value)) == map[key := Trim(value)]
  {
    hide Parse, Trim, Kept, Blank;
    if tail == [] {
      assert tail + Print(key, value) == Print(key, value);
      ParseOfPrint(key, value);
    } else {
      BlankTailWorks(tail, key, value);
    }
  }

  lemma {:induction false} EntryHasRoom(tail: string, key: string, value: string)
    requires ValidKey(key) && ValidValue(value)
    requires Blank(tail, 0, |tail|) ==> |tail| + |key| + 1 + Kept(value) > LINE
    ensures tail != []
  {
  }

  /** A line is copied up to its first NUL, so that a NUL before a newline joins the next
      line to it: the entry there keeps its value if and only if there are but blanks before
      the NUL, with room for the entry after them. */
  lemma {:induction false} NulJoinsLines(p: string, key: string, value: string, k: string, v: string, st: Stack)
    requires Piece(p, LINE) && Full(p, LINE) && !NulFree(p)
    requires Arguments(key, value) && Trimmed(key) && Arguments(k, v) && Trimmed(k) && k != key
    requires !Has(Parse(CStr(p)), k) && !Has(Parse(CStr(p)), key)
    ensures var text, tail := p + Print(key, value), CStr(p);
      StoreOf(Written(text, k, v, st)) == StoreOf(text)[k := Trim(v)]
      <==> Blank(tail, 0, |tail|) && |tail| + |key| + 1 + Kept(value) <= LINE
  {
    hide Parse, Pieces, Store, StoreOf, SetText, CStr, JoinedMap;
    var tail := CStr(p);
    BeforeNul(p);
    StoresAroundNul(p, key, value, k, v);
    WrittenWhenFound(p + Print(key, value), k, v, st);
    if Blank(tail, 0, |tail|) && |tail| + |key| + 1 + Kept(value) <= LINE {
      BlankMeansNothing(tail);
      JoinWorks(tail, key, value);
    } else {
      EntryHasRoom(tail, key, value);
      JoinFails(tail, key, value);
      var before := StoreOf(p + Print(key, value));
      UpdateMissed(before, JoinedMap(tail + Print(key, value)), key, Trim(value), k, Trim(v));
    }
  }
}
