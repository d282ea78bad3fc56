/** The log-upload frame, byte for byte, and a decoder to hold it against. */
module Frames {
  import opened Options
  import opened Lengths

  /** `address_32bit_t`: its fields have exactly these widths. */
  datatype Address = Address(reserved: bv2, subnet: bv14, tnode: bv8, device: bv8)

  /** What goes into a frame. `length` is the `size_t` that comes with the data. */
  datatype Message = Message(number: bv16, source: Address, target: Address, kind: bv32, ident: byte,
                             length: bv64, data: seq<byte>)

  /** The length is that of the data, and there is some. */
  predicate Sized(m: Message) {
    m.data != [] && Size(m.length) == |m.data|
  }

  const HEADER: bv16 := 0x5A5A       // FRAME_HEADER
  const FOOTER: bv16 := 0x0D0A       // FRAME_FOOTER
  const EXTENDED: bv16 := 0x0000     // EXTENDED_IDENTIFIER

  // ---- fields ----

  /** `address_to_little_endian`. */
  function Pack(a: Address): bv32 {
    (a.device as bv32) | ((a.tnode as bv32) << 8) | ((a.subnet as bv32) << 16) | ((a.reserved as bv32) << 30)
  }

  function Unpack(x: bv32): Address {
    Address(((x >> 30) & 0x3) as bv2, ((x >> 16) & 0x3FFF) as bv14, ((x >> 8) & 0xFF) as bv8, (x & 0xFF) as bv8)
  }

  lemma {:induction false} PackUnpack(a: Address, x: bv32)
    ensures Unpack(Pack(a)) == a
    ensures Pack(Unpack(x)) == x
  {
  }

  /** The bytes of a 16-bit number in the memory of a little-endian host. */
  function Bytes16(x: bv16): (s: seq<byte>)
    ensures |s| == 2
  {
    [(x & 0xFF) as bv8, ((x >> 8) & 0xFF) as bv8]
  }

  function Word16(s: seq<byte>): bv16
    requires |s| == 2
  {
    (s[0] as bv16) | ((s[1] as bv16) << 8)
  }

  function Bytes32(x: bv32): (s: seq<byte>)
    ensures |s| == 4
  {
    [(x & 0xFF) as bv8, ((x >> 8) & 0xFF) as bv8, ((x >> 16) & 0xFF) as bv8, ((x >> 24) & 0xFF) as bv8]
  }

  function Word32(s: seq<byte>): bv32
    requires |s| == 4
  {
    (s[0] as bv32) | ((s[1] as bv32) << 8) | ((s[2] as bv32) << 16) | ((s[3] as bv32) << 24)
  }

  lemma {:induction false} Words(x: bv16, y: bv32)
    ensures Word16(Bytes16(x)) == x && Word32(Bytes32(y)) == y
  {
  }

  lemma {:induction false} Bytes(s: seq<byte>)
    ensures |s| == 2 ==> Bytes16(Word16(s)) == s
    ensures |s| == 4 ==> Bytes32(Word32(s)) == s
  {
  }

  // ---- the frame ----

  /** `calculate_checksum`: the exclusive or of the bytes. */
  function Xor(s: seq<byte>): byte {
    if s == [] then 0 else Xor(s[..|s| - 1]) ^ s[|s| - 1]
  }

  /** The fixed fields that come first. */
  function Head(m: Message): (s: seq<byte>)
    ensures |s| == 16
  {
    Bytes16(HEADER) + Bytes16(m.number) + Bytes32(Pack(m.source)) + Bytes32(Pack(m.target)) + Bytes32(m.kind)
  }

  /** The part of a frame that its checksum covers. */
  function Covered(m: Message): (s: seq<byte>)
    ensures |s| == 22 + |m.data|
  {
    Head(m) + Bytes24(m.length) + [m.ident] + m.data + Bytes16(EXTENDED)
  }

  /** A whole frame: `build_log_upload_frame`. */
  function Encode(m: Message): (f: seq<byte>)
    ensures |f| == 26 + |m.data|
  {
    var c := Covered(m);
    c + Bytes16(Xor(c) as bv16) + Bytes16(FOOTER)
  }

  /** What a receiver that checks everything reads in a frame. */
  function Decode(f: seq<byte>): Option<Message> {
    if |f| < 27 || |f| != 26 + Size(Word24(f[16..19])) then None
    else
      var n := |f|;
      if f[..2] != Bytes16(HEADER) || f[n - 6..n - 4] != Bytes16(EXTENDED)
        || f[n - 4..n - 2] != Bytes16(Xor(f[..n - 4]) as bv16) || f[n - 2..] != Bytes16(FOOTER)
      then None
      else Some(Message(Word16(f[2..4]), Unpack(Word32(f[4..8])), Unpack(Word32(f[8..12])), Word32(f[12..16]),
        f[19], Word24(f[16..19]), f[20..n - 6]))
  }

  lemma {:induction false} HeadLayout(m: Message)
    ensures var f := Head(m);
      && f[..2] == Bytes16(HEADER) && f[2..4] == Bytes16(m.number)
      && f[4..8] == Bytes32(Pack(m.source)) && f[8..12] == Bytes32(Pack(m.target)) && f[12..16] == Bytes32(m.kind)
  {
    hide Pack, Bytes16, Bytes32;
  }

  lemma {:induction false} Layout(m: Message)
    ensures var f, n := Encode(m), 26 + |m.data|;
      && f[..16] == Head(m) && f[16..19] == Bytes24(m.length) && f[19] == m.ident && f[20..n - 6] == m.data
      && f[n - 6..n - 4] == Bytes16(EXTENDED) && f[..n - 4] == Covered(m)
      && f[n - 4..n - 2] == Bytes16(Xor(Covered(m)) as bv16) && f[n - 2..] == Bytes16(FOOTER)
  {
    hide Xor, Bytes16, Bytes24, Head;
  }

  lemma {:induction false} SplitHead(f: seq<byte>)
    requires |f| >= 16
    ensures f[..16] == f[..2] + f[2..4] + f[4..8] + f[8..12] + f[12..16]
  {
    assert f[..4] == f[..2] + f[2..4];
    assert f[..8] == f[..4] + f[4..8];
    assert f[..12] == f[..8] + f[8..12];
  }

  lemma {:induction false} SplitFrame(f: seq<byte>)
    requires |f| >= 26
    ensures var n := |f|;
      && f[..n - 4] == f[..16] + f[16..19] + [f[19]] + f[20..n - 6] + f[n - 6..n - 4]
      && f == f[..n - 4] + f[n - 4..n - 2] + f[n - 2..]
  {
    var n := |f|;
    assert f[..19] == f[..16] + f[16..19];
    assert f[..20] == f[..19] + [f[19]];
    assert f[..n - 6] == f[..20] + f[20..n - 6];
  }

  /** A frame is determined by its parts. */
  lemma {:induction false} Assemble(f: seq<byte>, m: Message)
    requires |f| == 26 + |m.data|
    requires var n := |f|;
      && f[..2] == Bytes16(HEADER) && f[2..4] == Bytes16(m.number)
      && f[4..8] == Bytes32(Pack(m.source)) && f[8..12] == Bytes32(Pack(m.target)) && f[12..16] == Bytes32(m.kind)
      && f[16..19] == Bytes24(m.length) && f[19] == m.ident && f[20..n - 6] == m.data
      && f[n - 6..n - 4] == Bytes16(EXTENDED)
      && f[n - 4..n - 2] == Bytes16(Xor(f[..n - 4]) as bv16) && f[n - 2..] == Bytes16(FOOTER)
    ensures f == Encode(m)
  {
    hide Xor, Bytes16, Bytes24, Bytes32, Pack;
    SplitHead(f);
    SplitFrame(f);
  }

  /** Decoding a built frame gives back everything that went into it, exactly when the
      length fits its three bytes. */
  lemma {:induction false} DecodeOfEncode(m: Message)
    requires Sized(m)
    ensures Decode(Encode(m)) == Some(m) <==> |m.data| < LENGTHS
    ensures |m.data| >= LENGTHS ==> Decode(Encode(m)) == None
  {
    hide Size, Pack, Unpack, Xor, Word16, Word24, Word32, Bytes16, Bytes24, Bytes32, Head, Encode;
    var f := Encode(m);
    Layout(m);
    HeadLayout(m);
    assert f[..2] == f[..16][..2] && f[2..4] == f[..16][2..4];
    assert f[4..8] == f[..16][4..8] && f[8..12] == f[..16][8..12] && f[12..16] == f[..16][12..16];
    Length24(m.length);
    PackUnpack(m.source, 0);
    PackUnpack(m.target, 0);
    Words(m.number, Pack(m.source));
    Words(m.number, Pack(m.target));
    Words(m.number, m.kind);
  }

  /** A receiver accepts nothing but built frames. */
  lemma {:induction false} EncodeOfDecode(f: seq<byte>)
    requires Decode(f).Some?
    ensures var m := Decode(f).value; Encode(m) == f && Sized(m) && |m.data| < LENGTHS
  {
    hide Size, Pack, Unpack, Xor, Word16, Word24, Word32, Bytes16, Bytes24, Bytes32, Head, Encode;
    var m := Decode(f).value;
    Bytes(f[2..4]);
    Bytes(f[4..8]);
    Bytes(f[8..12]);
    Bytes(f[12..16]);
    PackUnpack(m.source, Word32(f[4..8]));
    PackUnpack(m.target, Word32(f[8..12]));
    Bytes24Of(f[16..19]);
    Assemble(f, m);
  }

  /** Different fixed fields make different heads. */
  lemma {:induction false} HeadInjective(m: Message, other: Message)
    requires Head(m) == Head(other)
    ensures m.number == other.number && m.source == other.source && m.target == other.target && m.kind == other.kind
  {
    hide Head, Pack, Unpack, Word16, Word32, Bytes16, Bytes32;
    HeadLayout(m);
    HeadLayout(other);
    Words(m.number, m.kind);
    Words(other.number, other.kind);
    Words(m.number, Pack(m.source));
    Words(m.number, Pack(other.source));
    Words(m.number, Pack(m.target));
    Words(m.number, Pack(other.target));
    PackUnpack(m.source, 0);
    PackUnpack(other.source, 0);
    PackUnpack(m.target, 0);
    PackUnpack(other.target, 0);
  }

  /** Different messages make different frames, even those that the decoder cannot tell
      the length of. */
  lemma {:induction false} EncodeInjective(m: Message, other: Message)
    requires Sized(m) && Sized(other) && Encode(m) == Encode(other)
    ensures m == other
  {
    hide Encode, Head, Size;
    Layout(m);
    Layout(other);
    HeadInjective(m, other);
    SizeInjective(m.length, other.length);
  }

  /** The bytes of an address: device, node, and the subnet below the two reserved bits. */
  lemma {:induction false} AddressBytes(a: Address)
    ensures var b := Bytes32(Pack(a));
      && b[0] == a.device && b[1] == a.tnode
      && b[2] == (a.subnet & 0xFF) as byte
      && b[3] == ((a.subnet >> 8) as byte) | ((a.reserved as byte) << 6)
  {
  }

  lemma {:induction false} HeadBytes(h: seq<byte>, f: seq<byte>)
    requires |f| >= 16 && h == f[..16]
    ensures f[0] == h[..2][0] && f[1] == h[..2][1] && f[2] == h[2..4][0] && f[3] == h[2..4][1]
    ensures f[4..8] == h[4..8] && f[8..12] == h[8..12]
    ensures f[12] == h[12..16][0] && f[13] == h[12..16][1] && f[14] == h[12..16][2] && f[15] == h[12..16][3]
  {
  }

  lemma {:induction false} ChecksumBytes(x: byte)
    ensures Bytes16(x as bv16) == [x, 0]
  {
  }

  /** Every byte of a frame but those of the data: low bytes come first. */
  lemma {:induction false} FrameBytes(m: Message)
    ensures var f, n := Encode(m), 26 + |m.data|;
      && f[0] == 0x5A && f[1] == 0x5A
      && f[2] == (m.number & 0xFF) as byte && f[3] == (m.number >> 8) as byte
      && f[4..8] == Bytes32(Pack(m.source)) && f[8..12] == Bytes32(Pack(m.target))
      && f[12] == (m.kind & 0xFF) as byte && f[13] == ((m.kind >> 8) & 0xFF) as byte
      && f[14] == ((m.kind >> 16) & 0xFF) as byte && f[15] == (m.kind >> 24) as byte
      && f[16] == (m.length & 0xFF) as byte && f[17] == ((m.length >> 8) & 0xFF) as byte
      && f[18] == ((m.length >> 16) & 0xFF) as byte && f[19] == m.ident
      && f[n - 6] == 0 && f[n - 5] == 0
      && f[n - 4] == Xor(f[..n - 4]) && f[n - 3] == 0
      && f[n - 2] == 0x0A && f[n - 1] == 0x0D
  {
    hide Xor, Pack, Encode, Head, Covered;
    var f, n := Encode(m), 26 + |m.data|;
    Layout(m);
    HeadLayout(m);
    HeadBytes(f[..16], f);
    assert f[16] == f[16..19][0] && f[17] == f[16..19][1] && f[18] == f[16..19][2];
    assert f[n - 6] == f[n - 6..n - 4][0] && f[n - 5] == f[n - 6..n - 4][1];
    assert f[n - 4] == f[n - 4..n - 2][0] && f[n - 3] == f[n - 4..n - 2][1];
    assert f[n - 2] == f[n - 2..][0] && f[n - 1] == f[n - 2..][1];
    ChecksumBytes(Xor(f[..n - 4]));
  }

  // ---- damage ----

  /** Changing one byte changes the checksum, by exactly that change. */
  lemma {:induction false} XorOfChange(s: seq<byte>, i: nat, b: byte)
    requires i < |s|
    ensures Xor(s[i := b]) == Xor(s) ^ s[i] ^ b
  {
    var n := |s| - 1;
    var t := s[i := b];
    if i == n {
      assert t[..n] == s[..n];
    } else {
      assert t[..n] == s[..n][i := b];
      XorOfChange(s[..n], i, b);
    }
  }

  lemma {:induction false} ChecksumBytesDiffer(x: byte, y: byte)
    requires x != y
    ensures Bytes16(x as bv16) != Bytes16(y as bv16)
  {
    Words(x as bv16, 0);
    Words(y as bv16, 0);
  }

  lemma {:induction false} ChangeDiffers(x: byte, a: byte, b: byte)
    requires a != b
    ensures x ^ a ^ b != x
  {
  }

  lemma {:induction false} XorSeesChange(s: seq<byte>, i: nat, b: byte)
    requires i < |s| && b != s[i]
    ensures Xor(s[i := b]) != Xor(s)
  {
    hide Xor;
    XorOfChange(s, i, b);
    ChangeDiffers(Xor(s), s[i], b);
  }

  /** A change of one byte shows in the checksum field. */
  lemma {:induction false} ChecksumSeesChange(s: seq<byte>, i: nat, b: byte)
    requires i < |s| && b != s[i]
    ensures Bytes16(Xor(s[i := b]) as bv16) != Bytes16(Xor(s) as bv16)
  {
    hide Xor, Bytes16;
    XorSeesChange(s, i, b);
    ChecksumBytesDiffer(Xor(s[i := b]), Xor(s));
  }

  /** The checksum `sum` goes with the bytes `covered`. */
  ghost predicate Matches(covered: seq<byte>, sum: seq<byte>) {
    sum == Bytes16(Xor(covered) as bv16)
  }

  /** The two checks at the end of a frame. */
  ghost predicate Trailer(f: seq<byte>)
    requires |f| >= 4
  {
    Matches(f[..|f| - 4], f[|f| - 4..|f| - 2]) && f[|f| - 2..] == Bytes16(FOOTER)
  }

  lemma {:induction false} DecodeNeedsTrailer(f: seq<byte>)
    ensures Decode(f).Some? ==> |f| >= 27 && Trailer(f)
  {
    hide Bytes16, Xor, Word24, Size;
  }

  lemma {:induction false} UpdateOutside(f: seq<byte>, i: nat, b: byte, lo: nat, hi: nat)
    requires i < |f| && lo <= hi <= |f| && (i < lo || hi <= i)
    ensures f[i := b][lo..hi] == f[lo..hi]
  {
  }

  lemma {:induction false} UpdateInside(f: seq<byte>, i: nat, b: byte, n: nat)
    requires i < n <= |f|
    ensures f[i := b][..n] == f[..n][i := b]
  {
  }

  lemma {:induction false} CoveredDamage(covered: seq<byte>, sum: seq<byte>, i: nat, b: byte)
    requires Matches(covered, sum) && i < |covered| && b != covered[i]
    ensures !Matches(covered[i := b], sum)
  {
    hide Bytes16, Xor;
    ChecksumSeesChange(covered, i, b);
  }

  lemma {:induction false} TrailerDamage(f: seq<byte>, i: nat, b: byte)
    requires |f| >= 4 && Trailer(f) && |f| - 4 <= i < |f| && b != f[i]
    ensures !Trailer(f[i := b])
  {
    hide Bytes16, Xor;
    var g, n := f[i := b], |f| - 4;
    assert g[..n] == f[..n];
    assert i < n + 2 ==> g[n..n + 2][i - n] != f[n..n + 2][i - n];
    assert n + 2 <= i ==> g[n + 2..][i - n - 2] != f[n + 2..][i - n - 2];
  }

  lemma {:induction false} EncodeHasTrailer(m: Message)
    ensures Trailer(Encode(m))
  {
    hide Encode, Xor, Bytes16;
    Layout(m);
  }

  /** No single damaged byte, wherever it is in the frame, gets past the receiver. */
  lemma {:induction false} DamageIsDetected(m: Message, i: nat, b: byte)
    requires i < |Encode(m)| && b != Encode(m)[i]
    ensures Decode(Encode(m)[i := b]) == None
  {
    hide Decode, Encode, Matches, Bytes16;
    var f := Encode(m);
    var n := |f| - 4;
    EncodeHasTrailer(m);
    if i < n {
      CoveredDamage(f[..n], f[n..n + 2], i, b);
      UpdateInside(f, i, b, n);
      UpdateOutside(f, i, b, n, n + 2);
    } else {
      TrailerDamage(f, i, b);
    }
    DecodeNeedsTrailer(f[i := b]);
  }
}
