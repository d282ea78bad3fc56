/** What setting and getting promise together, and what success promises. */
module ConfigPromises {
  import opened CText
  import opened CNumbers
  import opened Options
  import opened ConfigLine
  import opened ConfigText
  import opened ConfigWrite
  import opened ConfigFile

  /** What `config_get` leaves in a buffer of `len` bytes for this value. */
  function Fetched(value: string, len: nat, st: Stack): string
    requires 0 < len
  {
    Cut(ValueRead(value, st), Some(len - 1))
  }

  lemma {:induction false} FetchedFits(value: string, len: nat, st: Stack)
    requires ValidValue(value) && 0 < len <= MAX_VALUE
    ensures Fetched(value, len, st) == Cut(value, Some(len - 1))
  {
    assert ValueRead(value, st)[..|value|] == value;
  }

  /** The value that a file then has for the key: if the key was there and was not found, it
      is the one from before. */
  ghost function ValueAfter(text: string, key: string, value: string, st: Stack): string {
    if Finds(text, key, st) then Trim(value) else StoreOf(text)[key]
  }

  /** After `config_set`, `config_get` of the key gives that value, cut to the buffer, if it
      finds the key, and `config_get` of any other key gives what it gave before. */
  lemma {:induction false} SetThenGet(text: string, key: string, value: string, setting: Stack,
                                      other: string, buffer: string, len: nat, getting: Stack)
    requires Settable(text, key, value, setting) && Trimmed(key)
    requires ValidValue(buffer) && 0 < len
    ensures var after := Some(Written(text, key, value, setting));
      && GetResult(after, key, buffer, len, getting) ==
          (if Findable(key, getting) then (SUCCESS, Fetched(ValueAfter(text, key, value, setting), len, getting))
           else (ERROR_NOT_FOUND, buffer))
      && (other != key ==> GetResult(after, other, buffer, len, getting) == GetResult(Some(text), other, buffer, len, getting))
  {
    hide Parse, Written, StoreOf, Findable;
    SetIsUpdate(text, key, value, setting);
  }

  /** With keys of every length: what was set is what is got if and only if the key is found
      when it is got, and it was when it was set, or was new, or nothing changed. */
  lemma {:induction false} SetThenGetExactly(text: string, key: string, value: string, setting: Stack,
                                             buffer: string, len: nat, getting: Stack)
    requires Settable(text, key, value, setting) && Trimmed(key)
    requires ValidValue(buffer) && 0 < len
    ensures var m := StoreOf(text);
      GetResult(Some(Written(text, key, value, setting)), key, buffer, len, getting) == (SUCCESS, Fetched(Trim(value), len, getting))
      <==> (Findable(key, getting)
          && (Finds(text, key, setting) || Fetched(m[key], len, getting) == Fetched(Trim(value), len, getting)))
  {
    hide Parse, Written, StoreOf, Findable;
    SetThenGet(text, key, value, setting, key, buffer, len, getting);
  }

  lemma {:induction false} GetIntOfNumber(file: Option<string>, key: string, n: int, stale: string, was: int, st: Stack)
    requires INT_MIN <= n <= INT_MAX
    requires GetResult(file, key, stale, MAX_VALUE, st) == (SUCCESS, IntText(n))
    ensures GetIntResult(file, key, stale, was, st) == (SUCCESS, n)
  {
    hide Strtol, IntText, GetResult;
    StrtolOfIntText(n);
    IntTextPlain(n);
    assert ToInt(n) == n;
  }

  /** Setting a 32-bit number and getting it gives it back, exactly if what happens to be in
      the local buffer of `config_get_int` passes for a value, and the key is found when it is
      got, and it was when it was set, or was new, or had this number before. */
  lemma {:induction false} SetIntThenGetInt(text: string, key: string, n: int, setting: Stack, stale: string, was: int, getting: Stack)
    requires Settable(text, key, IntText(n), setting) && Trimmed(key)
    requires INT_MIN <= n <= INT_MAX && was != n
    ensures var after := Some(Written(text, key, IntText(n), setting));
      && (GetIntResult(after, key, stale, was, getting) == (SUCCESS, n) <==>
            ValidValue(stale) && Findable(key, getting)
            && (Finds(text, key, setting) || GetIntResult(Some(text), key, stale, was, getting) == (SUCCESS, n)))
      && (!ValidValue(stale) ==> GetIntResult(after, key, stale, was, getting) == (ERROR_INVALID_PARAM, was))
  {
    hide Parse, Written, StoreOf, Strtol, IntText, Findable;
    if ValidValue(stale) {
      SetThenGet(text, key, IntText(n), setting, key, stale, MAX_VALUE, getting);
      if Findable(key, getting) && Finds(text, key, setting) {
        IntTextPlain(n);
        FetchedFits(IntText(n), MAX_VALUE, getting);
        GetIntOfNumber(Some(Written(text, key, IntText(n), setting)), key, n, stale, was, getting);
      }
    }
  }

  lemma {:induction false} OnlyKey(m: map<string, string>, key: string, v: string)
    ensures map[key := v] == m[key := v] <==> m.Keys <= {key}
  {
    if map[key := v] == m[key := v] {
      assert forall k :: k in m ==> k in m[key := v];
    }
  }

  lemma {:induction false} StoreOfEntry(key: string, value: string)
    requires Arguments(key, value) && Trimmed(key)
    ensures StoreOf([]) == map[] && StoreOf(Print(key, value)) == map[key := Trim(value)]
  {
    hide Parse, SetText;
    NothingStored();
    NoMorePieces();
    SetTextOfNothing(key, value);
    SetTextIsUpdate([], key, value);
  }

  /** What success means for the map, where all writes fit or none does: with the original
      opened it is what `SetIsUpdate` says; without, the new entry is all that is left, which
      is an update exactly if there were no other keys; and with no room nothing is left. */
  lemma {:induction false} SuccessNeedsRoom(text: string, key: string, value: string, io: Io)
    requires Settable(text, key, value, io.stack) && Trimmed(key)
    ensures var after, m := Cut(Intended(Some(text), io, key, value), io.room), StoreOf(text);
      && (io.origOpens && (io.room.None? || |Written(text, key, value, io.stack)| <= io.room.value) ==>
            StoreOf(after) == if Finds(text, key, io.stack) then m[key := Trim(value)] else m)
      && (io.room == Some(0) ==> StoreOf(after) == map[])
      && (!io.origOpens && (io.room.None? || |Print(key, value)| <= io.room.value) ==>
            StoreOf(after) == map[key := Trim(value)])
      && (map[key := Trim(value)] == m[key := Trim(value)] <==> m.Keys <= {key})
  {
    hide Parse, Written, StoreOf, SetText;
    OnlyKey(StoreOf(text), key, Trim(value));
    SetIsUpdate(text, key, value, io.stack);
    StoreOfEntry(key, value);
    if !io.origOpens {
      WrittenWhenFound([], key, value, io.stack);
      SetTextOfNothing(key, value);
    }
  }
}
