/** C strings and text streams: blank trimming, NUL termination, and the
    pieces in which `fgets` hands out a file. One `char` stands for one byte. */
module CText {

  // ---- blanks ----

  /** `isspace` in the C locale: space, and the range from tab to carriage return. */
  predicate IsSpace(c: char) {
    c == ' ' || '\t' <= c <= '\r'
  }

  /** Everything from `i` up to `j` is white space. */
  ghost predicate Blank(s: string, i: nat, j: nat)
    requires i <= j <= |s|
  {
    forall x :: i <= x < j ==> IsSpace(s[x])
  }

  /** Where the blanks that start at `i` end. */
  function SkipBlanks(s: string, i: nat): (n: nat)
    requires i <= |s|
    ensures i <= n <= |s|
    decreases |s| - i
  {
    if i < |s| && IsSpace(s[i]) then SkipBlanks(s, i + 1) else i
  }

  /** Where the blanks that end at `j` start. */
  function DropBlanks(s: string, j: nat): (n: nat)
    requires j <= |s|
    ensures n <= j
  {
    if 0 < j && IsSpace(s[j - 1]) then DropBlanks(s, j - 1) else j
  }

  lemma {:induction false} SkipBlanksIs(s: string, i: nat)
    requires i <= |s|
    ensures var n := SkipBlanks(s, i); Blank(s, i, n) && (n < |s| ==> !IsSpace(s[n]))
    decreases |s| - i
  {
    if i < |s| && IsSpace(s[i]) {
      SkipBlanksIs(s, i + 1);
    }
  }

  lemma {:induction false} DropBlanksIs(s: string, j: nat)
    requires j <= |s|
    ensures var n := DropBlanks(s, j); Blank(s, n, j) && (0 < n ==> !IsSpace(s[n - 1]))
  {
    if 0 < j && IsSpace(s[j - 1]) {
      DropBlanksIs(s, j - 1);
    }
  }

  /** `s` without the blanks at both ends. */
  function Trim(s: string): string {
    var i, j := SkipBlanks(s, 0), DropBlanks(s, |s|);
    if j <= i then [] else s[i..j]
  }

  /** The span `i..j` of `s` has blank surroundings and no blank at its ends. */
  ghost predicate Core(s: string, i: nat, j: nat) {
    && i <= j <= |s|
    && Blank(s, 0, i) && Blank(s, j, |s|)
    && (i < j ==> !IsSpace(s[i]) && !IsSpace(s[j - 1]))
  }

  lemma {:induction false} TrimSpan(s: string) returns (i: nat, j: nat)
    ensures Core(s, i, j) && Trim(s) == s[i..j]
  {
    SkipBlanksIs(s, 0);
    DropBlanksIs(s, |s|);
    i := SkipBlanks(s, 0);
    j := DropBlanks(s, |s|);
    if i == |s| {
      j := i;
    }
  }

  /** There is only one way to cut the blanks off both ends. */
  lemma {:induction false} TrimIs(s: string, i: nat, j: nat)
    requires Core(s, i, j)
    ensures Trim(s) == s[i..j]
  {
    var a, b := TrimSpan(s);
    if i < j {
      assert a <= i && j <= b;
    }
    if a < b {
      assert i <= a && b <= j;
    }
  }

  /** No blank at either end. */
  predicate Trimmed(s: string) {
    s == [] || (!IsSpace(s[0]) && !IsSpace(s[|s| - 1]))
  }

  /** Trimming leaves no blank at either end, and leaves alone what has none. */
  lemma {:induction false} TrimTrims(s: string)
    ensures Trimmed(Trim(s))
    ensures Trimmed(s) <==> Trim(s) == s
  {
    var i, j := TrimSpan(s);
    if Trimmed(s) {
      TrimIs(s, 0, |s|);
      assert s[0..|s|] == s;
    }
  }

  // ---- NUL termination and searching ----

  /** `c` does not occur before position `n`. */
  ghost predicate Lacks(s: string, n: nat, c: char)
    requires n <= |s|
  {
    forall x :: 0 <= x < n ==> s[x] != c
  }

  /** Where the first occurrence of `c` from `i` on is, or the length if there is none. */
  function IndexFrom(s: string, c: char, i: nat): (n: nat)
    requires i <= |s|
    ensures i <= n <= |s|
    decreases |s| - i
  {
    if i < |s| && s[i] != c then IndexFrom(s, c, i + 1) else i
  }

  /** `strchr`: the first occurrence of `c`, or the length if there is none. */
  function IndexOf(s: string, c: char): (n: nat)
    ensures n <= |s|
  {
    IndexFrom(s, c, 0)
  }

  lemma {:induction false} IndexFromFinds(s: string, c: char, i: nat)
    requires i <= |s|
    ensures var n := IndexFrom(s, c, i); (forall x :: i <= x < n ==> s[x] != c) && (n < |s| ==> s[n] == c)
    decreases |s| - i
  {
    if i < |s| && s[i] != c {
      IndexFromFinds(s, c, i + 1);
    }
  }

  lemma {:induction false} IndexOfFinds(s: string, c: char)
    ensures var n := IndexOf(s, c); Lacks(s, n, c) && (n < |s| ==> s[n] == c)
  {
    IndexFromFinds(s, c, 0);
  }

  lemma {:induction false} IndexOfIs(s: string, c: char, i: nat)
    requires i <= |s| && Lacks(s, i, c) && (i < |s| ==> s[i] == c)
    ensures IndexOf(s, c) == i
  {
    IndexOfFinds(s, c);
    var j := IndexOf(s, c);
    assert i < j || j < i || i == j;
  }

  /** What C reads as a string from these bytes: everything before the first NUL. */
  function CStr(s: string): string {
    s[..IndexOf(s, '\0')]
  }

  lemma {:induction false} CStrWhole(s: string)
    requires Lacks(s, |s|, '\0')
    ensures CStr(s) == s
  {
    IndexOfIs(s, '\0', |s|);
  }

  // ---- fgets ----

  /** How many bytes one `fgets` takes from `t` when it may take `cap`:
      up to and including a newline. */
  function PieceLen(t: string, cap: nat): (n: nat)
    requires t != [] && cap > 0
    ensures 1 <= n <= |t| && n <= cap
    ensures Lacks(t, n - 1, '\n')
    ensures n == cap || n == |t| || t[n - 1] == '\n'
  {
    if t[0] == '\n' || cap == 1 || |t| == 1 then 1
    else
      var m := PieceLen(t[1..], cap - 1);
      assert forall x :: 1 <= x <= m ==> t[x] == t[1..][x - 1];
      1 + m
  }

  /** One `fgets` result: not empty, within the buffer, a newline at most at its end. */
  ghost predicate Piece(p: string, cap: nat) {
    1 <= |p| <= cap && Lacks(p, |p| - 1, '\n')
  }

  /** A piece that ends itself, so that whatever follows starts a new piece. */
  predicate Full(p: string, cap: nat) {
    p != [] && (|p| == cap || p[|p| - 1] == '\n')
  }

  /** Every piece is one, and each but the last ends itself. */
  ghost predicate Framed(ps: seq<string>, cap: nat) {
    forall i :: 0 <= i < |ps| ==> Piece(ps[i], cap) && (i < |ps| - 1 ==> Full(ps[i], cap))
  }

  function Concat(ps: seq<string>): string {
    if ps == [] then [] else ps[0] + Concat(ps[1..])
  }

  /** Everything a loop over `fgets` sees, in order. */
  function Pieces(t: string, cap: nat): (ps: seq<string>)
    requires cap > 0
    ensures Framed(ps, cap)
    ensures Concat(ps) == t
    ensures ps == [] <==> t == []
  {
    if t == [] then []
    else
      var n := PieceLen(t, cap);
      var p, rest := t[..n], Pieces(t[n..], cap);
      assert Piece(p, cap) && (n < |t| ==> Full(p, cap));
      assert t == p + t[n..];
      [p] + rest
  }

  lemma {:induction false} PieceLenIs(p: string, rest: string, cap: nat)
    requires Piece(p, cap) && (Full(p, cap) || rest == [])
    ensures PieceLen(p + rest, cap) == |p|
    decreases |p|
  {
    var t := p + rest;
    if |p| > 1 {
      var q := p[1..];
      assert p[0] != '\n';
      PieceLenIs(q, rest, cap - 1);
      assert t[1..] == q + rest;
    }
  }

  /** `fgets` is the inverse of writing out well-framed pieces. */
  lemma {:induction false} PiecesOfConcat(ps: seq<string>, cap: nat)
    requires cap > 0 && Framed(ps, cap)
    ensures Pieces(Concat(ps), cap) == ps
  {
    if ps != [] {
      var p, rest := ps[0], Concat(ps[1..]);
      assert Framed(ps[1..], cap) by {
        forall i | 0 <= i < |ps[1..]| ensures Piece(ps[1..][i], cap) && (i < |ps[1..]| - 1 ==> Full(ps[1..][i], cap)) {
          assert ps[1..][i] == ps[i + 1];
        }
      }
      PiecesOfConcat(ps[1..], cap);
      assert |ps| == 1 ==> rest == [];
      PieceLenIs(p, rest, cap);
      var t := p + rest;
      assert t[..|p|] == p && t[|p|..] == rest;
      assert Pieces(t, cap) == [p] + Pieces(rest, cap);
    }
  }

  lemma {:induction false} ConcatAppend(ps: seq<string>, qs: seq<string>)
    ensures Concat(ps + qs) == Concat(ps) + Concat(qs)
  {
    if ps == [] {
      assert ps + qs == qs;
    } else {
      assert (ps + qs)[1..] == ps[1..] + qs;
      ConcatAppend(ps[1..], qs);
    }
  }

  lemma {:induction false} ConcatOne(ps: seq<string>, p: string)
    ensures Concat(ps + [p]) == Concat(ps) + p
  {
    ConcatAppend(ps, [p]);
    assert Concat([p]) == p + Concat([p][1..]);
  }

  /** A byte that occurs in no piece does not occur in the text, and conversely. */
  lemma {:induction false} ConcatLacks(ps: seq<string>, c: char)
    ensures Lacks(Concat(ps), |Concat(ps)|, c) <==> forall i :: 0 <= i < |ps| ==> Lacks(ps[i], |ps[i]|, c)
  {
    if ps != [] {
      var p, t := ps[0], Concat(ps[1..]);
      ConcatLacks(ps[1..], c);
      assert Lacks(p + t, |p + t|, c) <==> Lacks(p, |p|, c) && Lacks(t, |t|, c) by {
        assert forall x :: 0 <= x < |p| ==> (p + t)[x] == p[x];
        assert forall x :: 0 <= x < |t| ==> (p + t)[|p| + x] == t[x];
      }
      assert forall i :: 0 < i < |ps| ==> ps[i] == ps[1..][i - 1];
      assert forall i :: 0 <= i < |ps| - 1 ==> ps[1..][i] == ps[i + 1];
    }
  }
}
