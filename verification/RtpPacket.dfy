/** RTP packets packed into and unpacked from signed chars. The fields are file-level globals in
    the source, so one object of each class below stands for all packets of a program. */
module RtpPackets {

  type schar = c: int | -128 <= c < 128

  const HEADER_SIZE := 12
  const SSRC := 305419896

  // ---------------------------------------------------------------- bytes

  /** Storing an int into a signed char keeps its low eight bits. */
  function Narrow(n: int): schar {
    (n + 128) % 256 - 128
  }

  /** unsigned_int. */
  function UnsignedInt(nb: int): int {
    if nb >= 0 then nb else 256 + nb
  }

  lemma NarrowUnsigned(n: int)
    ensures UnsignedInt(Narrow(n)) == n % 256
  {}

  /** A sum that does not fit an int wraps around. */
  function Int32(n: int): int {
    (n + 0x8000_0000) % 0x1_0000_0000 - 0x8000_0000
  }

  /** n >> (8 * k), with sign propagation. */
  function Shift(n: int, k: nat): int {
    if k == 0 then n else Shift(n, k - 1) / 256
  }

  /** (1 << 7) | n. */
  function SetBit7(n: int): int {
    if n / 128 % 2 == 1 then n else n + 128
  }

  /** c & 127. */
  function Low7(c: int): int {
    c % 128
  }

  // ---------------------------------------------------------------- packets as values

  datatype Fields = Fields(payloadType: int, sequenceNumber: int, timeStamp: int, payload: seq<schar>)

  /** Version 2, marker set, no padding, extension or contributing sources. */
  function Header(f: Fields): seq<schar> {
    [Narrow(128), Narrow(SetBit7(f.payloadType)),
     Narrow(Shift(f.sequenceNumber, 1)), Narrow(f.sequenceNumber),
     Narrow(Shift(f.timeStamp, 3)), Narrow(Shift(f.timeStamp, 2)), Narrow(Shift(f.timeStamp, 1)),
     Narrow(Shift(f.timeStamp, 0)),
     Narrow(Shift(SSRC, 3)), Narrow(Shift(SSRC, 2)), Narrow(Shift(SSRC, 1)), Narrow(Shift(SSRC, 0))]
  }

  function Packet(f: Fields): seq<schar> {
    Header(f) + f.payload
  }

  function Read(packet: seq<schar>): Fields
    requires |packet| >= HEADER_SIZE
  {
    Fields(Low7(packet[1]),
           UnsignedInt(packet[3]) + 256 * UnsignedInt(packet[2]),
           Int32(UnsignedInt(packet[7]) + 256 * UnsignedInt(packet[6]) + 65536 * UnsignedInt(packet[5])
                 + 16777216 * UnsignedInt(packet[4])),
           packet[HEADER_SIZE..])
  }

  /** The byte with bit 7 set, as a signed char. */
  lemma Marked(n: int)
    ensures Narrow(SetBit7(n)) == n % 128 - 128
  {
    var q, m := n / 128, n % 128;
    assert n == 128 * q + m;
    assert SetBit7(n) == 256 * (q / 2) + 128 + m;
    NarrowUpper(q / 2, m);
  }

  lemma NarrowUpper(h: int, m: int)
    requires 0 <= m < 128
    ensures Narrow(256 * h + 128 + m) == m - 128
  {
    assert 256 * h + 128 + m + 128 == 256 * (h + 1) + m;
  }

  lemma Low7OfMarked(n: int)
    ensures Low7(Narrow(SetBit7(n))) == n % 128
  {
    Marked(n);
  }

  lemma TwoBytes(n: int)
    ensures UnsignedInt(Narrow(n)) + 256 * UnsignedInt(Narrow(Shift(n, 1))) == n % 65536
  {
    NarrowUnsigned(n);
    NarrowUnsigned(Shift(n, 1));
    assert Shift(n, 1) == n / 256;
  }

  lemma FourBytes(n: int)
    ensures UnsignedInt(Narrow(Shift(n, 0))) + 256 * UnsignedInt(Narrow(Shift(n, 1)))
      + 65536 * UnsignedInt(Narrow(Shift(n, 2))) + 16777216 * UnsignedInt(Narrow(Shift(n, 3))) == n % 4294967296
  {
    TwoBytes(n);
    TwoBytes(Shift(n, 2));
    ShiftTwice(n);
    Halves(n);
  }

  lemma ShiftTwice(n: int)
    ensures Shift(n, 0) == n && Shift(n, 2) == n / 65536 && Shift(n, 3) == Shift(Shift(n, 2), 1)
  {
    assert Shift(n, 1) == n / 256;
    assert Shift(Shift(n, 2), 1) == Shift(Shift(n, 2), 0) / 256;
  }

  lemma Halves(n: int)
    ensures n % 65536 + 65536 * (n / 65536 % 65536) == n % 4294967296
  {
    var q := n / 65536;
    assert n == n % 65536 + 65536 * q;
    assert q == q % 65536 + 65536 * (q / 65536);
  }

  /** Whatever is packed is unpacked up to the field widths of section 5.1 of RFC 3550: 7 bits of
      payload type, 16 of sequence number, 32 of timestamp, the last read back as a signed int. */
  lemma PackUnpack(f: Fields)
    ensures Read(Packet(f)) ==
      Fields(f.payloadType % 128, f.sequenceNumber % 65536, Int32(f.timeStamp), f.payload)
  {
    var packet := Packet(f);
    assert packet[HEADER_SIZE..] == f.payload;
    Low7OfMarked(f.payloadType);
    TwoBytes(f.sequenceNumber);
    FourBytes(f.timeStamp);
    Int32OfRemainder(f.timeStamp);
  }

  lemma Int32OfRemainder(n: int)
    ensures Int32(n % 0x1_0000_0000) == Int32(n)
    ensures Int32(n) == n <==> -0x8000_0000 <= n < 0x8000_0000
  {}

  /** The fields come back unchanged exactly when type and sequence number fit their widths without
      a sign and the timestamp is an int. */
  lemma UnpackExactly(f: Fields)
    ensures Read(Packet(f)) == f <==>
      0 <= f.payloadType < 128 && 0 <= f.sequenceNumber < 65536 && -0x8000_0000 <= f.timeStamp < 0x8000_0000
  {
    PackUnpack(f);
    Int32OfRemainder(f.timeStamp);
    UnchangedBy(f.payloadType, 128);
    UnchangedBy(f.sequenceNumber, 65536);
  }

  lemma UnchangedBy(n: int, width: nat)
    requires width > 0
    ensures n % width == n <==> 0 <= n < width
  {}

  // ---------------------------------------------------------------- reference: section 5.1 of RFC 3550

  /** The bytes as an unsigned number in network order. */
  function BigEndian(bytes: seq<schar>): nat {
    if bytes == [] then 0 else 256 * BigEndian(bytes[..|bytes| - 1]) + (bytes[|bytes| - 1] as int) % 256
  }

  lemma BigEndianTwo(a: schar, b: schar)
    ensures BigEndian([a]) == a % 256 && BigEndian([a, b]) == 256 * (a % 256) + b % 256
  {
    assert [a, b][..1] == [a] && [a][..0] == [];
  }

  lemma BigEndianFour(a: schar, b: schar, c: schar, d: schar)
    ensures BigEndian([a, b, c, d]) == 16777216 * (a % 256) + 65536 * (b % 256) + 256 * (c % 256) + d % 256
  {
    BigEndianTwo(a, b);
    assert [a, b, c, d][..3] == [a, b, c] && [a, b, c][..2] == [a, b];
  }

  lemma UnsignedRemainder(c: schar)
    ensures UnsignedInt(c) == c % 256
  {}

  lemma FieldSlices(h: seq<schar>)
    requires |h| >= 12
    ensures h[0..1] == [h[0]] && h[1..2] == [h[1]] && h[2..4] == [h[2], h[3]]
    ensures h[4..8] == [h[4], h[5], h[6], h[7]] && h[8..12] == [h[8], h[9], h[10], h[11]]
  {}

  /** The header as the standard lays it out: version 2 and nothing else in the first byte; marker and
      payload type; sequence number, timestamp and source in network order. */
  lemma HeaderLayout(f: Fields)
    ensures var h := Header(f);
      && |h| == 12
      && BigEndian(h[0..1]) == 0x80
      && BigEndian(h[1..2]) == 128 + f.payloadType % 128
      && BigEndian(h[2..4]) == f.sequenceNumber % 65536
      && BigEndian(h[4..8]) == f.timeStamp % 4294967296
      && BigEndian(h[8..12]) == 305419896
  {
    var h := Header(f);
    FieldSlices(h);
    FirstByte(h[0]);
    SecondByte(f.payloadType, h[1]);
    NumberLayout(f.sequenceNumber, h[2], h[3]);
    LongLayout(f.timeStamp, h[4], h[5], h[6], h[7]);
    LongLayout(SSRC, h[8], h[9], h[10], h[11]);
  }

  lemma FirstByte(b: schar)
    requires b == Narrow(128)
    ensures BigEndian([b]) == 0x80
  {
    BigEndianTwo(b, b);
  }

  lemma SecondByte(n: int, b: schar)
    requires b == Narrow(SetBit7(n))
    ensures BigEndian([b]) == 128 + n % 128
  {
    Marked(n);
    BigEndianTwo(b, b);
  }

  lemma NumberLayout(n: int, high: schar, low: schar)
    requires high == Narrow(Shift(n, 1)) && low == Narrow(n)
    ensures BigEndian([high, low]) == n % 65536
  {
    BigEndianTwo(high, low);
    UnsignedRemainder(high);
    UnsignedRemainder(low);
    TwoBytes(n);
  }

  lemma LongLayout(n: int, a: schar, b: schar, c: schar, d: schar)
    requires a == Narrow(Shift(n, 3)) && b == Narrow(Shift(n, 2)) && c == Narrow(Shift(n, 1)) && d == Narrow(Shift(n, 0))
    ensures BigEndian([a, b, c, d]) == n % 4294967296
  {
    BigEndianFour(a, b, c, d);
    UnsignedRemainder(a);
    UnsignedRemainder(b);
    UnsignedRemainder(c);
    UnsignedRemainder(d);
    FourBytes(n);
  }

  lemma ReadNumber(a: schar, b: schar)
    ensures UnsignedInt(b) + 256 * UnsignedInt(a) == BigEndian([a, b])
  {
    BigEndianTwo(a, b);
    UnsignedRemainder(a);
    UnsignedRemainder(b);
  }

  lemma ReadLong(a: schar, b: schar, c: schar, d: schar)
    ensures UnsignedInt(d) + 256 * UnsignedInt(c) + 65536 * UnsignedInt(b) + 16777216 * UnsignedInt(a) ==
      BigEndian([a, b, c, d])
  {
    BigEndianFour(a, b, c, d);
    UnsignedRemainder(a);
    UnsignedRemainder(b);
    UnsignedRemainder(c);
    UnsignedRemainder(d);
  }

  lemma ReadType(b: schar)
    ensures Low7(b) == BigEndian([b]) % 128
  {
    BigEndianTwo(b, b);
  }

  /** What is read from any packet, by the same layout; the timestamp comes back as a signed int. */
  lemma ReadLayout(packet: seq<schar>)
    requires |packet| >= HEADER_SIZE
    ensures var f := Read(packet);
      && f.payloadType == BigEndian(packet[1..2]) % 128
      && f.sequenceNumber == BigEndian(packet[2..4])
      && f.timeStamp == Int32(BigEndian(packet[4..8]))
      && f.payload == packet[12..]
  {
    FieldSlices(packet);
    ReadType(packet[1]);
    ReadNumber(packet[2], packet[3]);
    ReadLong(packet[4], packet[5], packet[6], packet[7]);
  }

  // ---------------------------------------------------------------- server

  class RtpEncoder {
    var header: array<schar>
    var payload: array<schar>
    var payloadSize: nat
    var fields: Fields              // PayloadType, SequenceNumber, TimeStamp as last set

    ghost predicate Valid()
      reads this, header, payload
    {
      && header.Length == HEADER_SIZE && payload.Length == payloadSize && header != payload
      && header[..] == Header(fields) && payload[..] == fields.payload
    }

    /** The encoding constructor of RTPpacket. */
    constructor (pType: int, frameNb: int, time: int, arrIn: array<schar>, size: nat)
      requires size <= arrIn.Length
      ensures Valid() && fresh(header) && fresh(payload)
      ensures fields == Fields(pType, frameNb, time, arrIn[..size])
    {
      header := new schar[HEADER_SIZE](_ => 0);
      payload := new schar[size](_ => 0);
      payloadSize := size;
      fields := Fields(pType, frameNb, time, arrIn[..size]);
      new;
      header[0] := Narrow(128);
      header[1] := Narrow(SetBit7(pType));
      header[2] := Narrow(Shift(frameNb, 1));
      header[3] := Narrow(frameNb);
      FillBytes(header, 7, time);
      FillBytes(header, 11, SSRC);
      var i := 0;
      while i < size
        modifies payload
        invariant 0 <= i <= size
        invariant payload[..i] == arrIn[..i]
      {
        payload[i] := arrIn[i];
        i := i + 1;
      }
    }

    /** getpacket: header and payload, copied into the caller's array. */
    method GetPacket(packet: array<schar>) returns (length: nat)
      requires Valid() && packet != header && packet != payload && payloadSize + HEADER_SIZE <= packet.Length
      modifies packet
      ensures length == payloadSize + HEADER_SIZE && packet[..length] == Packet(fields)
    {
      var i := 0;
      while i < HEADER_SIZE
        invariant 0 <= i <= HEADER_SIZE
        invariant packet[..i] == header[..i] && Valid()
      {
        packet[i] := header[i];
        i := i + 1;
      }
      i := 0;
      while i < payloadSize
        invariant 0 <= i <= payloadSize && Valid()
        invariant packet[..HEADER_SIZE + i] == header[..] + payload[..i]
      {
        packet[i + HEADER_SIZE] := payload[i];
        i := i + 1;
      }
      length := payloadSize + HEADER_SIZE;
    }
  }

  /** The four bytes of `n`, least significant at `last`. */
  method FillBytes(header: array<schar>, last: nat, n: int)
    requires 3 <= last < header.Length
    modifies header
    ensures header[..] == old(header[..last - 3])
      + [Narrow(Shift(n, 3)), Narrow(Shift(n, 2)), Narrow(Shift(n, 1)), Narrow(Shift(n, 0))] + old(header[last + 1..])
  {
    var i := 0;
    while i < 4
      invariant 0 <= i <= 4
      invariant forall k :: 0 <= k < i ==> header[last - k] == Narrow(Shift(n, k))
      invariant forall j :: 0 <= j < header.Length && !(last - i < j <= last) ==> header[j] == old(header[j])
    {
      header[last - i] := Narrow(Shift(n, i));
      i := i + 1;
    }
  }

  // ---------------------------------------------------------------- client

  class RtpDecoder {
    const header: array<schar>      // MAX_BUFF chars
    const payload: array<schar>     // MAX_BUFF chars
    var payloadSize: nat
    var version: int
    var padding: int
    var extension: int
    var cc: int
    var marker: int
    var ssrc: int
    var payloadType: int
    var sequenceNumber: int
    var timeStamp: int

    /** The fields that are not taken from the packet. */
    ghost predicate Defaults()
      reads this
    {
      version == 2 && padding == extension == cc == marker == ssrc == 0
    }

    ghost predicate Valid()
      reads this
    {
      header != payload && HEADER_SIZE <= header.Length && payloadSize <= payload.Length
    }

    ghost function View(): Fields
      requires Valid()
      reads this, payload
    {
      Fields(payloadType, sequenceNumber, timeStamp, payload[..payloadSize])
    }

    constructor (maxBuff: nat)
      requires HEADER_SIZE <= maxBuff
      ensures Valid() && fresh(header) && fresh(payload) && payload.Length == maxBuff
    {
      header := new schar[maxBuff](_ => 0);
      payload := new schar[maxBuff](_ => 0);
      version, padding, extension, cc, marker, ssrc := 0, 0, 0, 0, 0, 0;
      payloadSize, payloadType, sequenceNumber, timeStamp := 0, 0, 0, 0;
    }

    /** The decoding constructor: a packet shorter than a header only sets the default fields. */
    method Decode(packet: array<schar>, packetSize: nat)
      requires Valid() && packet != header && packet != payload && packetSize <= packet.Length
      requires packetSize <= HEADER_SIZE + payload.Length
      modifies this, header, payload
      ensures Valid() && Defaults()
      ensures View() == if packetSize >= HEADER_SIZE then Read(packet[..packetSize]) else old(View())
    {
      version, padding, extension, cc, marker, ssrc := 2, 0, 0, 0, 0, 0;
      if packetSize >= HEADER_SIZE {
        DecodeBytes(packet, packetSize);
      }
    }

    /** Copying the bytes and interpreting the changing fields of the header. */
    method DecodeBytes(packet: array<schar>, packetSize: nat)
      requires Valid() && packet != header && packet != payload && HEADER_SIZE <= packetSize <= packet.Length
      requires packetSize <= HEADER_SIZE + payload.Length
      modifies this`payloadSize, this`payloadType, this`sequenceNumber, this`timeStamp, header, payload
      ensures Valid() && View() == Read(packet[..packetSize])
    {
      var i := 0;
      while i < HEADER_SIZE
        modifies header
        invariant 0 <= i <= HEADER_SIZE
        invariant packet[..] == old(packet[..]) && header[..i] == packet[..i]
      {
        header[i] := packet[i];
        i := i + 1;
      }
      payloadSize := packetSize - HEADER_SIZE;
      i := HEADER_SIZE;
      while i < packetSize
        modifies payload
        invariant HEADER_SIZE <= i <= packetSize
        invariant packet[..] == old(packet[..]) && header[..HEADER_SIZE] == packet[..HEADER_SIZE]
        invariant payload[..i - HEADER_SIZE] == packet[HEADER_SIZE..i]
      {
        payload[i - HEADER_SIZE] := packet[i];
        i := i + 1;
      }
      assert packet[..packetSize][HEADER_SIZE..] == packet[HEADER_SIZE..packetSize];
      assert forall k :: 0 <= k < HEADER_SIZE ==> header[k] == packet[..packetSize][k];
      payloadType := Low7(header[1]);
      sequenceNumber := UnsignedInt(header[3]) + 256 * UnsignedInt(header[2]);
      timeStamp := Int32(UnsignedInt(header[7]) + 256 * UnsignedInt(header[6]) + 65536 * UnsignedInt(header[5])
                         + 16777216 * UnsignedInt(header[4]));
    }

    /** getpayload. */
    method GetPayload(data: array<schar>) returns (size: nat)
      requires Valid() && data != payload && payloadSize <= data.Length
      modifies data
      ensures size == payloadSize && data[..size] == View().payload
    {
      var i := 0;
      while i < payloadSize
        invariant 0 <= i <= payloadSize && payload[..] == old(payload[..])
        invariant data[..i] == payload[..i]
      {
        data[i] := payload[i];
        i := i + 1;
      }
      size := payloadSize;
    }
  }

  /** A frame through both programs: packed by the server, unpacked by a client with the fixed
      64000-char buffers. */
  method Transmit(pType: int, frameNb: int, time: int, frame: array<schar>)
      returns (received: Fields)
    requires frame.Length <= 64000
    ensures received == Fields(pType % 128, frameNb % 65536, Int32(time), frame[..])
  {
    var encoder := new RtpEncoder(pType, frameNb, time, frame, frame.Length);
    var packet := new schar[frame.Length + HEADER_SIZE](_ => 0);
    var length := encoder.GetPacket(packet);
    var decoder := new RtpDecoder(64000);
    decoder.Decode(packet, length);
    PackUnpack(encoder.fields);
    var data := new schar[frame.Length](_ => 0);
    var size := decoder.GetPayload(data);
    assert frame[..frame.Length] == frame[..];
    received := Fields(decoder.payloadType, decoder.sequenceNumber, decoder.timeStamp, data[..size]);
  }
}
