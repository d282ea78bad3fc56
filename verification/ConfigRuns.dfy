/** Whole runs of `config_set` calls on one file, held against the same calls on a map. */
module ConfigRuns {
  import opened CText
  import opened Options
  import opened ConfigLine
  import opened ConfigText
  import opened ConfigWrite
  import opened ConfigFile
  import ConfigExact

  /** One call of `config_set`, and how the file system answers it. */
  datatype Call = Call(key: string, value: string, io: Io)

  /** The call is accepted and gets as far as its rename. */
  ghost predicate Takes(c: Call) {
    ValidKey(c.key) && ValidValue(c.value) && c.io.tempOpens && c.io.renames
  }

  /** Arguments are C strings, and a call that gets to its rename could read and write all. */
  ghost predicate ProperCall(c: Call) {
    NulFree(c.key) && NulFree(c.value) && (Takes(c) ==> c.io.origOpens && c.io.room.None?)
  }

  /** What one call leaves of the text, as the contract of `Config.ConfigSet` has it. */
  ghost function TextOfCall(text: string, c: Call): string {
    if Takes(c) then Cut(Intended(Some(text), c.io, c.key, c.value), c.io.room) else text
  }

  ghost function MapOfCall(m: map<string, string>, c: Call): map<string, string> {
    if Takes(c) then m[c.key := Trim(c.value)] else m
  }

  ghost function TextAfter(text: string, calls: seq<Call>): string {
    if calls == [] then text else TextOfCall(TextAfter(text, calls[..|calls| - 1]), calls[|calls| - 1])
  }

  ghost function MapAfter(m: map<string, string>, calls: seq<Call>): map<string, string> {
    if calls == [] then m else MapOfCall(MapAfter(m, calls[..|calls| - 1]), calls[|calls| - 1])
  }

  /** The call updates the map, by what a caller can check beforehand: the key has no blanks
      around it, and it is found, or new, or has the value already. */
  ghost predicate Updates(c: Call, m: map<string, string>) {
    Trimmed(c.key) && (Findable(c.key, c.io.stack) || c.key !in m || m[c.key] == Trim(c.value))
  }

  ghost predicate AllUpdate(m: map<string, string>, calls: seq<Call>) {
    forall i :: 0 <= i < |calls| && Takes(calls[i]) ==> Updates(calls[i], MapAfter(m, calls[..i]))
  }

  /** After each call the file stands for the map. */
  ghost predicate MapAlways(text: string, calls: seq<Call>) {
    forall n :: 0 <= n <= |calls| ==> StoreOf(TextAfter(text, calls[..n])) == MapAfter(StoreOf(text), calls[..n])
  }

  lemma {:induction false} OneCall(text: string, c: Call)
    requires Clean(text) && ProperCall(c)
    ensures Clean(TextOfCall(text, c))
    ensures Takes(c) ==>
      (StoreOf(TextOfCall(text, c)) == MapOfCall(StoreOf(text), c) <==> Updates(c, StoreOf(text)))
  {
    hide StoreOf, Written, Trim, Trimmed, Findable, EndsLine;
    if Takes(c) {
      var st := c.io.stack;
      CleanRewritable(text, c.key, c.value);
      LinesOfWritten(text, c.key, c.value, st);
      ConfigExact.SetIsUpdateExactly(text, c.key, c.value, st);
      if c.key in StoreOf(text) {
        ConfigExact.KeyInStoreTrimmed(text, c.key);
      }
    }
  }

  lemma {:induction false} AfterOne(text: string, m: map<string, string>, calls: seq<Call>, n: nat)
    requires n < |calls|
    ensures TextAfter(text, calls[..n + 1]) == TextOfCall(TextAfter(text, calls[..n]), calls[n])
    ensures MapAfter(m, calls[..n + 1]) == MapOfCall(MapAfter(m, calls[..n]), calls[n])
  {
    hide TextOfCall, MapOfCall;
    assert calls[..n + 1][..n] == calls[..n];
  }

  lemma {:induction false} StaysClean(text: string, calls: seq<Call>, n: nat)
    requires Clean(text) && n <= |calls| && forall i :: 0 <= i < |calls| ==> ProperCall(calls[i])
    ensures Clean(TextAfter(text, calls[..n]))
  {
    hide TextOfCall, ProperCall, Clean;
    if n > 0 {
      StaysClean(text, calls, n - 1);
      AfterOne(text, map[], calls, n - 1);
      OneCall(TextAfter(text, calls[..n - 1]), calls[n - 1]);
    }
  }

  lemma {:induction false} MapSoFar(text: string, calls: seq<Call>, n: nat)
    requires Clean(text) && n <= |calls| && forall i :: 0 <= i < |calls| ==> ProperCall(calls[i])
    requires AllUpdate(StoreOf(text), calls)
    ensures StoreOf(TextAfter(text, calls[..n])) == MapAfter(StoreOf(text), calls[..n])
  {
    hide ProperCall, Clean, Updates, StoreOf;
    if n > 0 {
      MapSoFar(text, calls, n - 1);
      StaysClean(text, calls, n - 1);
      AfterOne(text, StoreOf(text), calls, n - 1);
      OneCall(TextAfter(text, calls[..n - 1]), calls[n - 1]);
    }
  }

  /** Over every run of valid, invalid and failing calls the file stays a clean text file, and
      it stands for the map after each of them if and only if every call that takes effect
      updates the map. */
  lemma {:induction false} RunRefinesMap(text: string, calls: seq<Call>)
    requires Clean(text) && forall i :: 0 <= i < |calls| ==> ProperCall(calls[i])
    ensures Clean(TextAfter(text, calls))
    ensures MapAlways(text, calls) <==> AllUpdate(StoreOf(text), calls)
  {
    hide ProperCall, Clean, Updates, StoreOf, TextOfCall, MapOfCall, TextAfter, MapAfter;
    StaysClean(text, calls, |calls|);
    assert calls[..|calls|] == calls;
    if AllUpdate(StoreOf(text), calls) {
      forall n | 0 <= n <= |calls|
        ensures StoreOf(TextAfter(text, calls[..n])) == MapAfter(StoreOf(text), calls[..n])
      {
        MapSoFar(text, calls, n);
      }
    }
    if MapAlways(text, calls) {
      forall i | 0 <= i < |calls| && Takes(calls[i])
        ensures Updates(calls[i], MapAfter(StoreOf(text), calls[..i]))
      {
        StaysClean(text, calls, i);
        AfterOne(text, StoreOf(text), calls, i);
        OneCall(TextAfter(text, calls[..i]), calls[i]);
        assert StoreOf(TextAfter(text, calls[..i + 1])) == MapAfter(StoreOf(text), calls[..i + 1]);
      }
    }
  }
}
