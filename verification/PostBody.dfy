/** Accumulating the body of a POST request that arrives in pieces. */
module PostBody {

  const BUFFER_SIZE: nat := 1024

  function Flatten(chunks: seq<string>): string {
    if chunks == [] then [] else Flatten(chunks[..|chunks| - 1]) + chunks[|chunks| - 1]
  }

  /** What one call of the handler leads to. */
  datatype Action = Stored | Dispatched(body: string) | Refused | Waiting

  /** What a request has received so far, and whether it counts as complete. */
  datatype Progress = Progress(body: string, complete: bool)

  /** One chunk more. */
  function Receive(expected: nat, p: Progress, chunk: string): Progress {
    var body := p.body + chunk;
    Progress(body, p.complete || (expected > 0 && |body| >= expected))
  }

  function After(expected: nat, chunks: seq<string>): Progress {
    if chunks == [] then Progress([], false)
    else Receive(expected, After(expected, chunks[..|chunks| - 1]), chunks[|chunks| - 1])
  }

  /** However the body is split: what is stored is the body, and it is complete exactly when
      an expected length is known and reached. */
  lemma {:induction false} SplitDoesNotMatter(expected: nat, chunks: seq<string>)
    ensures var body := Flatten(chunks);
      After(expected, chunks) == Progress(body, expected > 0 && |body| >= expected)
  {
    if chunks != [] {
      SplitDoesNotMatter(expected, chunks[..|chunks| - 1]);
    }
  }

  /** Without an expected length a request is never complete, and so never dispatched. */
  lemma {:induction false} UnknownLengthNeverCompletes(chunks: seq<string>)
    ensures !After(0, chunks).complete
  {
    SplitDoesNotMatter(0, chunks);
  }

  class RequestData {
    var data: array<char>
    var dataSize: nat
    var capacity: nat
    const expected: nat
    var complete: bool
    ghost var chunks: seq<string>

    ghost predicate Valid()
      reads this, data
    {
      && capacity == data.Length && dataSize < capacity && data[dataSize] == '\0'
      && Progress(data[..dataSize], complete) == After(expected, chunks)
    }

    /** `init_request_data`. */
    constructor (expected: nat)
      ensures Valid() && chunks == [] && this.expected == expected && fresh(data)
    {
      this.expected := expected;
      capacity := if expected > 0 then expected + 1 else BUFFER_SIZE;
      data := new char[if expected > 0 then expected + 1 else BUFFER_SIZE](_ => '\0');
      dataSize, complete, chunks := 0, false, [];
    }

    /** `realloc`: a larger block with the old contents. */
    method Grow(newCapacity: nat)
      requires Valid() && newCapacity > capacity
      modifies this`data, this`capacity
      ensures Valid() && capacity == newCapacity && fresh(data) && data[..dataSize] == old(data[..dataSize])
    {
      var larger := new char[newCapacity](_ => '\0');
      forall i | 0 <= i < capacity {
        larger[i] := data[i];
      }
      data := larger;
      capacity := newCapacity;
      assert data[..dataSize] == old(data[..dataSize]);
    }

    /** The part of the handler that takes in a chunk. */
    method Store(chunk: string)
      requires Valid() && chunk != []
      modifies this, data
      ensures Valid() && chunks == old(chunks) + [chunk]
      ensures data[..dataSize] == old(data[..dataSize]) + chunk
    {
      if dataSize + |chunk| + 1 > capacity {
        Grow(dataSize + |chunk| + 1);
      }
      ghost var was := data[..dataSize];
      forall i | 0 <= i < |chunk| {
        data[dataSize + i] := chunk[i];
      }
      dataSize := dataSize + |chunk|;
      data[dataSize] := '\0';
      assert data[..dataSize] == was + chunk;
      if expected > 0 && dataSize >= expected {
        complete := true;
      }
      chunks := chunks + [chunk];
      assert chunks[..|chunks| - 1] == old(chunks);
    }

    /** The POST branch of `request_handler`: a chunk is stored; a call without one dispatches
        a complete body, unless it is not authorised and the address is not open to all. */
    method Handle(chunk: string, authorised: bool, open: bool) returns (action: Action)
      requires Valid()
      modifies this, data
      ensures Valid()
      ensures chunks == if chunk != [] then old(chunks) + [chunk] else old(chunks)
      ensures var body := Flatten(chunks);
        action == if chunk != [] then Stored
                  else if expected == 0 || |body| < expected then Waiting
                  else if authorised || open then Dispatched(body)
                  else Refused
    {
      if |chunk| > 0 {
        Store(chunk);
        return Stored;
      }
      SplitDoesNotMatter(expected, chunks);
      if complete {
        if !authorised && !open {
          return Refused;
        }
        return Dispatched(data[..dataSize]);
      }
      return Waiting;
    }
  }
}
