/**
 * The Quilkin Control Message Protocol (src/codec/qcmp.rs): packets are printed into and parsed
 * from byte buffers through builders and parsers that keep an offset.
 */
module Qcmp {
  import opened Base

  type Bytes = seq<Byte>

  type I64 = x: int | -0x8000_0000_0000_0000 <= x < 0x8000_0000_0000_0000

  const MAGIC: Bytes := [0x51, 0x4c, 0x4b, 0x4e]
  const VERSION: Byte := 0
  const PING: Byte := 0
  const PONG: Byte := 1
  const MIN_LEN: nat := 17
  const MAX_LEN: nat := 33

  /** Timestamps are nanoseconds since the epoch, possibly negative. */
  datatype Protocol =
    | Ping(clientTimestamp: I64, nonce: Byte)
    | PingReply(clientTimestamp: I64, nonce: Byte, serverStart: I64, serverTransmit: I64)

  datatype Error =
    | UnknownVersion(version: Byte)
    | LengthMismatch(specified: nat, available: nat)
    | InvalidCommand(code: Byte)

  // ---- Big-endian integers ----

  function ToBe(n: nat, v: nat): (r: Bytes)
    ensures |r| == n
  {
    if n == 0 then [] else ToBe(n - 1, v / 256) + [v % 256]
  }

  function FromBe(b: Bytes): nat {
    if b == [] then 0 else 256 * FromBe(b[..|b| - 1]) + b[|b| - 1]
  }

  lemma {:induction false} FromToBe(n: nat, v: nat)
    requires v < Pow256(n)
    ensures FromBe(ToBe(n, v)) == v
  {
    if n > 0 {
      FromToBe(n - 1, v / 256);
      assert ToBe(n, v)[..n - 1] == ToBe(n - 1, v / 256);
    }
  }

  lemma {:induction false} ToFromBe(b: Bytes)
    ensures FromBe(b) < Pow256(|b|)
    ensures ToBe(|b|, FromBe(b)) == b
  {
    if b != [] {
      ToFromBe(b[..|b| - 1]);
      assert FromBe(b) / 256 == FromBe(b[..|b| - 1]) && FromBe(b) % 256 == b[|b| - 1];
    }
  }

  /** i64::to_be_bytes: two's complement. */
  function PutI64(x: I64): (r: Bytes)
    ensures |r| == 8
  {
    ToBe(8, if x < 0 then x + 0x1_0000_0000_0000_0000 else x)
  }

  lemma Pow256Of8()
    ensures Pow256(8) == 0x1_0000_0000_0000_0000
  {
    assert Pow256(4) == 0x1_0000_0000;
  }

  function GetI64(b: Bytes): I64
    requires |b| == 8
  {
    ToFromBe(b);
    Pow256Of8();
    var u := FromBe(b);
    if u >= 0x8000_0000_0000_0000 then u - 0x1_0000_0000_0000_0000 else u
  }

  /** The bytes of `x` from the most significant on, in two's complement. */
  ghost predicate Spells(b: Bytes, x: int) {
    forall k :: 0 <= k < |b| ==> b[k] == (x / Pow256(|b| - 1 - k)) % 256
  }

  lemma {:induction false} ToBeSpells(n: nat, v: nat)
    ensures Spells(ToBe(n, v), v)
  {
    if n > 0 {
      var b := ToBe(n, v);
      ToBeSpells(n - 1, v / 256);
      var c := ToBe(n - 1, v / 256);
      hide ToBe, Pow256;
      forall k | 0 <= k < n - 1 ensures b[k] == (v / Pow256(n - 1 - k)) % 256 {
        assert b[k] == c[k] == (v / 256 / Pow256(n - 2 - k)) % 256;
        DropBytes(v, n - 2 - k);
      }
    }
  }

  lemma I64Spells(x: I64)
    ensures Spells(PutI64(x), x)
  {
    hide ToBe;
    var b := PutI64(x);
    ToBeSpells(8, if x < 0 then x + 0x1_0000_0000_0000_0000 else x);
    forall k | 0 <= k < 8 ensures b[k] == (x / Pow256(7 - k)) % 256 {
      if x < 0 {
        NegativeByte(x, k);
      }
    }
  }

  /** Adding 2^64 changes none of the lower eight bytes. */
  lemma NegativeByte(x: int, k: nat)
    requires k < 8
    ensures ((x + 0x1_0000_0000_0000_0000) / Pow256(7 - k)) % 256 == (x / Pow256(7 - k)) % 256
  {
    var d, up := Pow256(7 - k), Pow256(k);
    PowParts(7 - k, k);
    Pow256Of8();
    assert x == d * (x / d) + x % d;
    assert d * (x / d + 256 * up) == d * (x / d) + d * (256 * up);
    DivUnique(x + 0x1_0000_0000_0000_0000, d, x / d + 256 * up, x % d);
  }

  lemma {:induction false} PowParts(i: nat, j: nat)
    ensures Pow256(i) * (256 * Pow256(j)) == Pow256(i + j + 1)
  {
    if i > 0 {
      PowParts(i - 1, j);
      var c := 256 * Pow256(j);
      assert Pow256(i) * c == 256 * (Pow256(i - 1) * c);
    }
  }

  lemma I64RoundTrip(x: I64, b: Bytes)
    requires |b| == 8
    ensures GetI64(PutI64(x)) == x
    ensures PutI64(GetI64(b)) == b
  {
    Pow256Of8();
    FromToBe(8, if x < 0 then x + 0x1_0000_0000_0000_0000 else x);
    ToFromBe(b);
  }

  // ---- The format ----

  function Discriminant(m: Protocol): Byte {
    if m.Ping? then PING else PONG
  }

  /** The length of a payload: the nonce and one or three timestamps. */
  function PayloadLength(code: Byte): Result<nat, Error> {
    if code == PING then Ok(1 + 8 * 1) else if code == PONG then Ok(1 + 8 * 3) else Err(InvalidCommand(code))
  }

  function Timestamps(m: Protocol): Bytes {
    match m
    case Ping(c, _) => PutI64(c)
    case PingReply(c, _, s, t) => PutI64(c) + PutI64(s) + PutI64(t)
  }

  function Header(m: Protocol): (r: Bytes)
    ensures |r| == 8
  {
    MAGIC + [VERSION, Discriminant(m)] + ToBe(2, PayloadLength(Discriminant(m)).value)
  }

  /** The bytes of a message. */
  function Format(m: Protocol): (r: Bytes)
    ensures |r| == if m.Ping? then MIN_LEN else MAX_LEN
  {
    Header(m) + [m.nonce] + Timestamps(m)
  }

  /** The layout, byte by byte. */
  ghost predicate LaidOut(b: Bytes, m: Protocol) {
    && |b| == (if m.Ping? then 17 else 33)
    && b[..9] == [0x51, 0x4c, 0x4b, 0x4e, 0, if m.Ping? then 0 else 1, 0, if m.Ping? then 9 else 25, m.nonce]
    && Spells(b[9..17], m.clientTimestamp)
    && (m.PingReply? ==> Spells(b[17..25], m.serverStart) && Spells(b[25..33], m.serverTransmit))
  }

  lemma FormatLaidOut(m: Protocol)
    ensures LaidOut(Format(m), m)
  {
    hide PutI64, ToBe, Spells;
    FormatParts(m);
    LengthBytes(PayloadLength(Discriminant(m)).value);
    I64Spells(m.clientTimestamp);
    if m.PingReply? {
      I64Spells(m.serverStart);
      I64Spells(m.serverTransmit);
    }
  }

  // ---- Printing ----

  class QcmpPacket {
    const buf: array<Byte>
    var len: nat

    ghost predicate Valid()
      reads this
    {
      buf.Length == MAX_LEN && len <= MAX_LEN
    }

    constructor ()
      ensures Valid() && len == 0 && fresh(buf)
    {
      buf := new Byte[MAX_LEN](_ => 0);
      len := 0;
    }
  }

  class PacketBuilder {
    const packet: QcmpPacket
    var offset: nat

    /** What has been written so far. */
    ghost predicate Holds(written: Bytes)
      reads this, packet, packet.buf
    {
      && packet.Valid() && offset == |written| <= MAX_LEN
      && packet.buf[..offset] == written
    }

    constructor (packet: QcmpPacket)
      requires packet.Valid()
      modifies packet
      ensures this.packet == packet && Holds([]) && packet.Valid()
    {
      this.packet, offset := packet, 0;
      new;
      packet.len := 0;
    }

    method Push(val: Byte, ghost written: Bytes)
      requires Holds(written) && |written| < MAX_LEN
      modifies this, packet.buf
      ensures Holds(written + [val])
    {
      packet.buf[offset] := val;
      offset := offset + 1;
      assert packet.buf[..offset] == packet.buf[..offset - 1] + [val];
    }

    method PushSlice(s: Bytes, ghost written: Bytes)
      requires Holds(written) && |written| + |s| <= MAX_LEN
      modifies this, packet.buf
      ensures Holds(written + s)
    {
      for i := 0 to |s|
        invariant Holds(written) && packet.buf[offset..offset + i] == s[..i]
      {
        packet.buf[offset + i] := s[i];
        assert packet.buf[offset..offset + i + 1] == packet.buf[offset..offset + i] + [s[i]];
      }
      assert s[..|s|] == s;
      assert packet.buf[..offset + |s|] == packet.buf[..offset] + packet.buf[offset..offset + |s|];
      offset := offset + |s|;
    }

    /** Clears what an earlier message left behind. */
    method Finalize(ghost written: Bytes)
      requires Holds(written)
      modifies packet, packet.buf
      ensures Holds(written) && packet.len == |written|
      ensures forall i :: |written| <= i < MAX_LEN ==> packet.buf[i] == 0
    {
      for i := offset to MAX_LEN
        invariant Holds(written)
        invariant forall j :: offset <= j < i ==> packet.buf[j] == 0
      {
        packet.buf[i] := 0;
      }
      packet.len := offset;
    }
  }

  /** Prints a message; whatever the buffer held before, it then holds the message and zeros. */
  method Encode(m: Protocol, packet: QcmpPacket)
    requires packet.Valid()
    modifies packet, packet.buf
    ensures packet.Valid() && packet.len == |Format(m)|
    ensures packet.buf[..packet.len] == Format(m) && LaidOut(packet.buf[..packet.len], m)
    ensures forall i :: packet.len <= i < MAX_LEN ==> packet.buf[i] == 0
  {
    hide Header, PutI64, LaidOut;
    FormatLaidOut(m);
    var pb := new PacketBuilder(packet);
    EncodeHeader(m, pb);
    EncodePayload(m, pb, Header(m));
    pb.Finalize(Format(m));
  }

  method EncodeHeader(m: Protocol, pb: PacketBuilder)
    requires pb.Holds([])
    modifies pb, pb.packet.buf
    ensures pb.Holds(Header(m))
  {
    hide ToBe;
    pb.PushSlice(MAGIC, []);
    assert [] + MAGIC == MAGIC;
    pb.Push(VERSION, MAGIC);
    pb.Push(Discriminant(m), MAGIC + [VERSION]);
    assert MAGIC + [VERSION] + [Discriminant(m)] == MAGIC + [VERSION, Discriminant(m)];
    pb.PushSlice(ToBe(2, PayloadLength(Discriminant(m)).value), MAGIC + [VERSION, Discriminant(m)]);
  }

  method EncodePayload(m: Protocol, pb: PacketBuilder, ghost head: Bytes)
    requires |head| == 8 && pb.Holds(head)
    modifies pb, pb.packet.buf
    ensures pb.Holds(head + [m.nonce] + Timestamps(m))
  {
    hide PutI64;
    pb.Push(m.nonce, head);
    ghost var upTo := head + [m.nonce];
    match m
    case Ping(c, _) =>
      pb.PushSlice(PutI64(c), upTo);
    case PingReply(c, _, s, t) =>
      pb.PushSlice(PutI64(c), upTo);
      pb.PushSlice(PutI64(s), upTo + PutI64(c));
      pb.PushSlice(PutI64(t), upTo + PutI64(c) + PutI64(s));
      assert upTo + (PutI64(c) + PutI64(s) + PutI64(t)) == upTo + PutI64(c) + PutI64(s) + PutI64(t);
  }

  // ---- Parsing ----

  class PacketParser {
    const packet: Bytes
    var offset: nat

    constructor (packet: Bytes)
      ensures this.packet == packet && offset == 0
    {
      this.packet, offset := packet, 0;
    }

    /** The read is unchecked in the source; the precondition is what makes it safe. */
    method Read() returns (b: Byte)
      requires offset < |packet|
      modifies this
      ensures offset == old(offset) + 1 && b == packet[old(offset)]
    {
      b := packet[offset];
      offset := offset + 1;
    }

    method ReadSlice(n: nat) returns (s: Bytes)
      requires offset + n <= |packet|
      modifies this
      ensures offset == old(offset) + n && s == packet[old(offset)..offset]
    {
      s := packet[offset..offset + n];
      offset := offset + n;
    }
  }

  /** The message a well-formed input stands for. */
  function Meaning(input: Bytes): Protocol
    requires |input| == MIN_LEN || |input| == MAX_LEN
  {
    if |input| == MIN_LEN then Ping(GetI64(input[9..17]), input[8])
    else PingReply(GetI64(input[9..17]), input[8], GetI64(input[17..25]), GetI64(input[25..33]))
  }

  /** The fixed part of a message with code `code`. */
  predicate HeaderFor(input: Bytes, code: Byte) {
    && |input| >= 8 && input[..4] == MAGIC && input[4] == VERSION && input[5] == code
    && PayloadLength(code).Ok? && FromBe(input[6..8]) == PayloadLength(code).value == |input| - 8
  }

  lemma TwoBytes(a: Byte, b: Byte)
    ensures FromBe([a, b]) == 256 * a + b
  {
    assert [a, b][..1] == [a] && [a][..0] == [];
    assert FromBe([a]) == a;
  }

  lemma LengthBytes(v: nat)
    requires v < 0x1_0000
    ensures ToBe(2, v) == [v / 256, v % 256] && FromBe(ToBe(2, v)) == v
  {
    assert ToBe(1, v / 256) == [v / 256];
    TwoBytes(v / 256, v % 256);
  }

  lemma LengthOnlyOne(s: Bytes, v: nat)
    requires |s| == 2 && v < 0x1_0000 && FromBe(s) == v
    ensures s == ToBe(2, v)
  {
    assert s == [s[0], s[1]];
    TwoBytes(s[0], s[1]);
    LengthBytes(v);
  }

  /** An input is some message's format exactly when it has that message's header and length. */
  lemma FormatMeaning(input: Bytes, m: Protocol)
    ensures input == Format(m) <==> HeaderFor(input, Discriminant(m)) && m == Meaning(input)
  {
    hide PutI64, GetI64, ToBe, FromBe;
    var code := Discriminant(m);
    LengthBytes(PayloadLength(code).value);
    if input == Format(m) {
      FormatParts(m);
      if m.Ping? {
        I64RoundTrip(m.clientTimestamp, PutI64(m.clientTimestamp));
      } else {
        I64RoundTrip(m.clientTimestamp, PutI64(m.clientTimestamp));
        I64RoundTrip(m.serverStart, PutI64(m.serverStart));
        I64RoundTrip(m.serverTransmit, PutI64(m.serverTransmit));
      }
    }
    if HeaderFor(input, code) && m == Meaning(input) {
      MeaningFormats(input, m);
    }
  }

  lemma FormatParts(m: Protocol)
    ensures var f := Format(m);
            && f[..4] == MAGIC && f[4] == VERSION && f[5] == Discriminant(m)
            && f[6..8] == ToBe(2, PayloadLength(Discriminant(m)).value) && f[8] == m.nonce
            && f[9..17] == PutI64(m.clientTimestamp)
            && (m.PingReply? ==> f[17..25] == PutI64(m.serverStart) && f[25..33] == PutI64(m.serverTransmit))
  {
    hide PutI64, ToBe;
  }

  lemma MeaningFormats(input: Bytes, m: Protocol)
    requires HeaderFor(input, Discriminant(m)) && m == Meaning(input)
    ensures input == Format(m)
  {
    hide PutI64, GetI64, ToBe, FromBe;
    LengthOnlyOne(input[6..8], PayloadLength(Discriminant(m)).value);
    I64RoundTrip(0, input[9..17]);
    assert input[9..17] == PutI64(m.clientTimestamp);
    if m.Ping? {
      assert input == input[..4] + [input[4], input[5]] + input[6..8] + [input[8]] + input[9..17];
    } else {
      I64RoundTrip(0, input[17..25]);
      I64RoundTrip(0, input[25..33]);
      assert input ==
        input[..4] + [input[4], input[5]] + input[6..8] + [input[8]] + (input[9..17] + input[17..25] + input[25..33]);
    }
  }

  /**
   * Parses any input. It yields a message exactly for that message's format, None exactly when the
   * magic number is missing, and an error otherwise; no read is out of bounds.
   */
  method Parse(input: Bytes) returns (r: Result<Option<Protocol>, Error>)
    ensures forall m :: r == Ok(Some(m)) <==> input == Format(m)
    ensures r.Ok? && r.value.Some? ==> LaidOut(input, r.value.value)
    ensures r == Ok(None) <==> |input| >= MIN_LEN && input[..4] != MAGIC
    ensures |input| < MIN_LEN ==> r == Err(LengthMismatch(MIN_LEN, |input|))
    ensures forall v :: r == Err(UnknownVersion(v)) <==>
            |input| >= MIN_LEN && input[..4] == MAGIC && input[4] == v && v != VERSION
    ensures forall c :: r == Err(InvalidCommand(c)) <==>
              && |input| >= MIN_LEN && input[..4] == MAGIC && input[4] == VERSION
              && input[5] == c && c != PING && c != PONG
    ensures |input| >= MIN_LEN && input[..4] == MAGIC && input[4] == VERSION && input[5] in {PING, PONG} ==>
              var size := if input[5] == PING then MIN_LEN else MAX_LEN;
              var length: int, payload := 256 * (input[6] as int) + input[7], size - 8;
              && (|input| < size ==> r == Err(LengthMismatch(size, |input|)))
              && (|input| >= size && length != payload ==> r == Err(LengthMismatch(length, payload)))
              && (|input| >= size && length == payload && length != |input| - 8 ==>
                 r == Err(LengthMismatch(length, |input| - 8)))
  {
    hide Format, GetI64, FromBe, LaidOut;
    forall m ensures LaidOut(Format(m), m) {
      FormatLaidOut(m);
    }
    if |input| < MIN_LEN {
      ShortIsNoMessage(input);
      return Err(LengthMismatch(MIN_LEN, |input|));
    }
    forall m ensures input == Format(m) <==> HeaderFor(input, Discriminant(m)) && m == Meaning(input) {
      FormatMeaning(input, m);
    }
    var pp := new PacketParser(input);
    var magic := pp.ReadSlice(4);
    if magic != MAGIC {
      return Ok(None);
    }
    var version := pp.Read();
    if version != VERSION {
      return Err(UnknownVersion(version));
    }
    var code := pp.Read();
    if code != PING && code != PONG {
      return Err(InvalidCommand(code));
    }
    var size := if code == PING then MIN_LEN else MAX_LEN;
    if |input| < size {
      return Err(LengthMismatch(size, |input|));
    }
    var lengthBytes := pp.ReadSlice(2);
    var length := FromBe(lengthBytes);
    assert lengthBytes == [input[6], input[7]];
    TwoBytes(input[6], input[7]);
    var payloadLength := PayloadLength(code).value;
    if length != payloadLength {
      return Err(LengthMismatch(length, payloadLength));
    }
    var remainder := |input| - pp.offset;
    if length != remainder {
      return Err(LengthMismatch(length, remainder));
    }
    var nonce := pp.Read();
    if code == PING {
      var client := pp.ReadSlice(8);
      r := Ok(Some(Ping(GetI64(client), nonce)));
    } else {
      var client := pp.ReadSlice(8);
      var start := pp.ReadSlice(8);
      var transmit := pp.ReadSlice(8);
      r := Ok(Some(PingReply(GetI64(client), nonce, GetI64(start), GetI64(transmit))));
    }
  }

  lemma ShortIsNoMessage(input: Bytes)
    requires |input| < MIN_LEN
    ensures forall m :: input != Format(m)
  {}

  /** A message is printed and read back unchanged. */
  method RoundTrip(m: Protocol) returns (r: Result<Option<Protocol>, Error>)
    ensures r == Ok(Some(m))
  {
    hide Format;
    var packet := new QcmpPacket();
    Encode(m, packet);
    r := Parse(packet.buf[..packet.len]);
  }

  // ---- Delay ----

  /** 64-bit wrap-around subtraction, as release builds do it. */
  function Wrap(x: int): I64 {
    (x + 0x8000_0000_0000_0000) % 0x1_0000_0000_0000_0000 - 0x8000_0000_0000_0000
  }

  /** The NTP round-trip delay (section 8 of RFC 5905) of a reply received at `t4`. */
  function RoundTripDelay(m: Protocol, t4: I64): Option<I64> {
    match m
    case PingReply(t1, _, t2, t3) => Some(Wrap(Wrap(t4 - t1) - Wrap(t3 - t2)))
    case Ping(_, _) => None
  }

  datatype Distance = Distance(incoming: I64, outgoing: I64)

  function DistanceOf(m: Protocol, t4: I64): Option<Distance> {
    match m
    case PingReply(t1, _, t2, t3) => Some(Distance(Wrap(t2 - t1), Wrap(t4 - t3)))
    case Ping(_, _) => None
  }

  /**
   * The delay is the sum of the two one-way distances, and an error in the server's clock, which
   * shifts its two timestamps alike, cancels out of it.
   */
  lemma DelayIsOffsetFree(m: Protocol, t4: I64, offset: int)
    requires m.PingReply?
    ensures RoundTripDelay(m, t4).value == Wrap(DistanceOf(m, t4).value.incoming + DistanceOf(m, t4).value.outgoing)
    ensures var start, transmit := Wrap(m.serverStart + offset), Wrap(m.serverTransmit + offset);
            var skewed := m.(serverStart := start, serverTransmit := transmit);
            RoundTripDelay(skewed, t4) == RoundTripDelay(m, t4)
  {
    hide Wrap;
    var t1, t2, t3 := m.clientTimestamp, m.serverStart, m.serverTransmit;
    WrapDifference(t4 - t1, t3 - t2);
    WrapSum(t2 - t1, t4 - t3);
    assert (t4 - t1) - (t3 - t2) == (t2 - t1) + (t4 - t3);
    WrapDifference(t3 + offset, t2 + offset);
    assert (t3 + offset) - (t2 + offset) == t3 - t2;
  }

  /**
   * The way in ends when the server starts, the way out begins when it transmits; a difference that
   * fits 64 bits is the true one. A ping has neither distance nor delay.
   */
  lemma DistancesAreTrue(m: Protocol, t4: I64)
    ensures RoundTripDelay(m, t4).None? && DistanceOf(m, t4).None? <==> m.Ping?
    ensures m.PingReply? ==>
              var goes, comes := m.serverStart - m.clientTimestamp, t4 - m.serverTransmit;
              && (Fits(goes) ==> DistanceOf(m, t4).value.incoming == goes)
              && (Fits(comes) ==> DistanceOf(m, t4).value.outgoing == comes)
              && (Fits(goes + comes) ==> RoundTripDelay(m, t4).value == goes + comes)
  {
    hide Wrap, Fits;
    if m.PingReply? {
      var goes, comes := m.serverStart - m.clientTimestamp, t4 - m.serverTransmit;
      DelayIsOffsetFree(m, t4, 0);
      WrapSum(goes, comes);
      WrapFits(goes);
      WrapFits(comes);
      WrapFits(goes + comes);
    }
  }

  predicate Fits(x: int) {
    -0x8000_0000_0000_0000 <= x < 0x8000_0000_0000_0000
  }

  lemma WrapFits(x: int)
    ensures Fits(x) ==> Wrap(x) == x
  {}

  /** Wrap picks the one representative in range. */
  lemma WrapMod(x: int, k: int)
    ensures Wrap(x + k * 0x1_0000_0000_0000_0000) == Wrap(x)
  {}

  lemma WrapBy(x: int) returns (k: int)
    ensures Wrap(x) == x + k * 0x1_0000_0000_0000_0000
  {
    k := -((x + 0x8000_0000_0000_0000) / 0x1_0000_0000_0000_0000);
  }

  lemma WrapDifference(x: int, y: int)
    ensures Wrap(Wrap(x) - Wrap(y)) == Wrap(x - y)
  {
    hide Wrap;
    var j := WrapBy(x);
    var k := WrapBy(y);
    WrapMod(x - y, j - k);
  }

  lemma WrapSum(x: int, y: int)
    ensures Wrap(Wrap(x) + Wrap(y)) == Wrap(x + y)
  {
    hide Wrap;
    var j := WrapBy(x);
    var k := WrapBy(y);
    WrapMod(x + y, j + k);
  }
}
