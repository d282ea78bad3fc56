/** The three-byte length field of a frame. */
module Lengths {
  type byte = bv8

  function Size(x: bv64): nat {
    x as int
  }

  const LENGTHS: nat := 0x100_0000

  /** The three low bytes of a length. */
  function Bytes24(x: bv64): (s: seq<byte>)
    ensures |s| == 3
  {
    [(x & 0xFF) as bv8, ((x >> 8) & 0xFF) as bv8, ((x >> 16) & 0xFF) as bv8]
  }

  function Word24(s: seq<byte>): bv64
    requires |s| == 3
  {
    (s[0] as bv64) | ((s[1] as bv64) << 8) | ((s[2] as bv64) << 16)
  }

  lemma {:induction false} LengthKept(x: bv64)
    ensures Word24(Bytes24(x)) == x & 0xFF_FFFF
  {
  }

  lemma {:induction false} WidenedIsSame(y: bv24)
    ensures (y as bv64) as int == y as int < 0x100_0000
  {
  }

  lemma {:induction false} MaskedIsSmall(x: bv64)
    requires x & 0xFF_FFFF == x
    ensures x as int < 0x100_0000
  {
    var y := (x & 0xFF_FFFF) as bv24;
    assert x == y as bv64;
    WidenedIsSame(y);
  }

  lemma {:induction false} LengthFits(x: bv64)
    requires x & 0xFF_FFFF == x
    ensures Size(x) < 0x100_0000
  {
    MaskedIsSmall(x);
  }

  lemma {:induction false} LengthWhole(x: bv64)
    requires Size(x) < 0x100_0000
    ensures x & 0xFF_FFFF == x
  {
  }

  lemma {:induction false} LengthCut(x: bv64)
    requires x & 0xFF_FFFF != x
    ensures Size(x & 0xFF_FFFF) != Size(x)
  {
  }

  /** Three bytes give the length back as a number exactly if it fits. */
  lemma {:induction false} Length24(x: bv64)
    ensures Size(Word24(Bytes24(x))) == Size(x) <==> Size(x) < LENGTHS
    ensures Size(x) < LENGTHS ==> Word24(Bytes24(x)) == x
  {
    hide Size;
    LengthKept(x);
    if x & 0xFF_FFFF == x {
      LengthFits(x);
    } else {
      LengthCut(x);
      if Size(x) < LENGTHS {
        LengthWhole(x);
      }
    }
  }

  lemma {:induction false} MaskedWord24(s: seq<byte>)
    requires |s| == 3
    ensures Bytes24(Word24(s)) == s && Word24(s) & 0xFF_FFFF == Word24(s)
  {
  }

  lemma {:induction false} Bytes24Of(s: seq<byte>)
    requires |s| == 3
    ensures Bytes24(Word24(s)) == s && Size(Word24(s)) < LENGTHS
  {
    hide Size;
    MaskedWord24(s);
    LengthFits(Word24(s));
  }

  /** Equal numbers are equal words. */
  lemma {:induction false} SizeInjective(w: bv64, v: bv64)
    requires Size(w) == Size(v)
    ensures w == v
  {
    assert (w as int) as bv64 == w && (v as int) as bv64 == v;
  }
}
