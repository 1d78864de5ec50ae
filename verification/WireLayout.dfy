/**
 The wire format byte by byte: where every field stands and which literal bytes mark it, on its way out and on its way
 in. Nothing here is stated through the functions that encode and decode.
 */
module WireLayout {
  import opened Bytes
  import opened MessageHeader
  import opened FrameParsing
  import opened Fragmenting
  import FragmentCount

  // ---- digits ----

  /** A number in 2, 4 or 8 bytes, the least significant first; higher digits are cut off. */
  function Digits2(v: nat): seq<byte> {
    [v % 0x100, v / 0x100 % 0x100]
  }

  function Digits4(v: nat): seq<byte> {
    [v % 0x100, v / 0x100 % 0x100, v / 0x1_0000 % 0x100, v / 0x100_0000 % 0x100]
  }

  function Digits8(v: nat): seq<byte> {
    Digits4(v) + Digits4(v / 0x1_0000_0000)
  }

  /** The number that stands in 2, 4 or 8 bytes from `at` on. */
  function Number2(s: seq<byte>, at: nat): uint16
    requires at + 2 <= |s|
  {
    s[at] as int + 0x100 * (s[at + 1] as int)
  }

  function Number4(s: seq<byte>, at: nat): uint32
    requires at + 4 <= |s|
  {
    s[at] as int + 0x100 * (s[at + 1] as int) + 0x1_0000 * (s[at + 2] as int) + 0x100_0000 * (s[at + 3] as int)
  }

  function Number8(s: seq<byte>, at: nat): uint64
    requires at + 8 <= |s|
  {
    Number4(s, at) + 0x1_0000_0000 * Number4(s, at + 4)
  }

  lemma WrittenDigits2(v: nat)
    ensures LittleEndian(v, 2) == Digits2(v)
  {
    assert LittleEndian(v / 256, 1) == [v / 256 % 256];
  }

  lemma DividedAgain(v: nat)
    ensures v / 0x100 / 0x100 == v / 0x1_0000 && v / 0x1_0000 / 0x100 == v / 0x100_0000
    ensures v / 0x100_0000 / 0x100 == v / 0x1_0000_0000
  {
  }

  lemma WrittenFour(v: nat, n: nat)
    requires n >= 4
    ensures LittleEndian(v, n) == Digits4(v) + LittleEndian(v / 0x1_0000_0000, n - 4)
  {
    hide LittleEndian;
    DividedAgain(v);
    WrittenStep(v, n);
    WrittenStep(v / 0x100, n - 1);
    WrittenStep(v / 0x1_0000, n - 2);
    WrittenStep(v / 0x100_0000, n - 3);
    FourInFront(v % 0x100, v / 0x100 % 0x100, v / 0x1_0000 % 0x100, v / 0x100_0000 % 0x100,
                LittleEndian(v / 0x1_0000_0000, n - 4));
  }

  lemma FourInFront(a: byte, b: byte, c: byte, d: byte, rest: seq<byte>)
    ensures [a] + ([b] + ([c] + ([d] + rest))) == [a, b, c, d] + rest
  {
  }

  lemma WrittenDigits4(v: nat)
    ensures LittleEndian(v, 4) == Digits4(v)
  {
    hide Digits4;
    WrittenFour(v, 4);
    EmptyEnds(Digits4(v));
  }

  lemma WrittenDigits8(v: nat)
    ensures LittleEndian(v, 8) == Digits8(v)
  {
    hide Digits4, LittleEndian;
    WrittenFour(v, 8);
    WrittenDigits4(v / 0x1_0000_0000);
  }

  lemma WrittenStep(v: nat, n: nat)
    requires n > 0
    ensures LittleEndian(v, n) == [v % 0x100] + LittleEndian(v / 0x100, n - 1)
  {
  }

  lemma ReadNumber2(s: seq<byte>, at: nat)
    requires at + 2 <= |s|
    ensures ReadUint16(s, at) == Number2(s, at)
  {
    var t := s[at..at + 2];
    assert FromLittleEndian(t[1..]) == t[1] + 256 * FromLittleEndian(t[2..]);
  }

  lemma ReadNumber4(s: seq<byte>, at: nat)
    requires at + 4 <= |s|
    ensures ReadUint32(s, at) == Number4(s, at)
  {
    ReadDigits4(s[at..at + 4]);
  }

  lemma ReadDigits4(t: seq<byte>)
    requires |t| == 4
    ensures FromLittleEndian(t) == Number4(t, 0)
  {
    assert t[1..][1..] == t[2..] && t[2..][1..] == t[3..] && t[3..][1..] == [];
    assert FromLittleEndian(t[3..]) == t[3];
    assert FromLittleEndian(t[2..]) == t[2] as int + 256 * (t[3] as int);
    assert FromLittleEndian(t[1..]) == t[1] as int + 256 * (t[2] as int) + 0x1_0000 * (t[3] as int);
  }

  lemma {:induction false} SplitRead(a: seq<byte>, b: seq<byte>)
    ensures FromLittleEndian(a + b) == FromLittleEndian(a) + Pow256(|a|) * FromLittleEndian(b)
    decreases |a|
  {
    if a == [] {
      EmptyEnds(b);
    } else {
      SplitRead(a[1..], b);
      assert (a + b)[1..] == a[1..] + b;
      Distribute(FromLittleEndian(a[1..]), Pow256(|a| - 1), FromLittleEndian(b));
    }
  }

  lemma Distribute(a: nat, p: nat, b: nat)
    ensures 256 * (a + p * b) == 256 * a + (256 * p) * b
  {
  }

  lemma ReadNumber8(s: seq<byte>, at: nat)
    requires at + 8 <= |s|
    ensures ReadUint64(s, at) == Number8(s, at)
  {
    hide FromLittleEndian;
    var a, b := s[at..at + 4], s[at + 4..at + 8];
    assert s[at..at + 8] == a + b;
    SplitRead(a, b);
    PowersOf256();
    ReadDigits4(a);
    ReadDigits4(b);
  }

  // ---- the frame header ----

  /** Every field of the header at its offset. */
  lemma HeaderLayout(h: Header)
    ensures |Encode(h)| == 32
    ensures Encode(h)[0..4] == Digits4(h.magic) && Encode(h)[4..8] == Digits4(h.headerSize)
    ensures Encode(h)[8..10] == Digits2(h.fragmentIndex) && Encode(h)[10..12] == Digits2(h.fragmentCount)
    ensures Encode(h)[12..16] == Digits4(h.length) && Encode(h)[16..20] == Digits4(h.identifier)
    ensures Encode(h)[20..24] == Digits4(h.conversationIndex) && Encode(h)[24..28] == Digits4(h.channelCode)
    ensures Encode(h)[28..32] == Digits4(h.expectsReply)
  {
    hide LittleEndian, Digits2, Digits4;
    WrittenDigits4(h.magic);
    WrittenDigits4(h.headerSize);
    WrittenDigits2(h.fragmentIndex);
    WrittenDigits2(h.fragmentCount);
    WrittenDigits4(h.length);
    WrittenDigits4(h.identifier);
    WrittenDigits4(h.conversationIndex);
    WrittenDigits4(h.channelCode);
    WrittenDigits4(h.expectsReply);
  }

  lemma HeaderIsRead(s: seq<byte>)
    requires |s| >= 32
    ensures Decode(s) == Header(Number4(s, 0), Number4(s, 4), Number2(s, 8), Number2(s, 10), Number4(s, 12),
                                Number4(s, 16), Number4(s, 20), Number4(s, 24), Number4(s, 28))
  {
    hide ReadUint16, ReadUint32, Number2, Number4;
    ReadNumber4(s, 0);
    ReadNumber4(s, 4);
    ReadNumber2(s, 8);
    ReadNumber2(s, 10);
    ReadNumber4(s, 12);
    ReadNumber4(s, 16);
    ReadNumber4(s, 20);
    ReadNumber4(s, 24);
    ReadNumber4(s, 28);
  }

  lemma StartDigits()
    ensures Digits4(MAGIC) == [0x79, 0x5B, 0x3D, 0x1F] && Digits4(HEADER_SIZE) == [0x20, 0x00, 0x00, 0x00]
  {
  }

  lemma FirstEight(bytes: seq<byte>)
    requires |bytes| >= 8 && bytes[0..4] == [0x79, 0x5B, 0x3D, 0x1F] && bytes[4..8] == [0x20, 0x00, 0x00, 0x00]
    ensures bytes[..8] == [0x79, 0x5B, 0x3D, 0x1F, 0x20, 0x00, 0x00, 0x00]
  {
    assert bytes[..8] == bytes[0..4] + bytes[4..8];
  }

  /** The bytes of a frame header that the transmitter writes. */
  lemma WrittenHeader(route: RoutingInfo, index: nat, count: nat, length: nat)
    ensures var bytes := Encode(HeaderFor(route, index, count, length));
            && |bytes| == 32
            && bytes[..8] == [0x79, 0x5B, 0x3D, 0x1F, 0x20, 0x00, 0x00, 0x00]
            && bytes[8..10] == Digits2(index) && bytes[10..12] == Digits2(count) && bytes[12..16] == Digits4(length)
            && bytes[16..20] == Digits4(route.identifier) && bytes[20..24] == Digits4(route.conversationIndex)
            && bytes[24..28] == Digits4(route.channelCode) && bytes[28..32] == Digits4(route.expectsReply)
  {
    hide Encode, Digits2, Digits4;
    HeaderLayout(HeaderFor(route, index, count, length));
    StartDigits();
    FirstEight(Encode(HeaderFor(route, index, count, length)));
    CutDigits(index, count, length);
  }

  lemma CutDigits(index: nat, count: nat, length: nat)
    ensures Digits2(index % 0x1_0000) == Digits2(index) && Digits2(count % 0x1_0000) == Digits2(count)
    ensures Digits4(length % 0x1_0000_0000) == Digits4(length)
  {
    hide Digits2, Digits4;
    CutDigits2(index);
    CutDigits2(count);
    CutDigits4(length);
  }

  lemma CutDigits2(v: nat)
    ensures Digits2(v % 0x1_0000) == Digits2(v)
  {
    var low, high := v % 0x1_0000, v / 0x1_0000;
    assert v == high * 0x1_0000 + low;
    assert v / 0x100 == high * 0x100 + low / 0x100;
  }

  lemma CutDigits4(v: nat)
    ensures Digits4(v % 0x1_0000_0000) == Digits4(v)
  {
    hide Digits4;
    FragmentCount.DivisionAlgorithm(v, 0x1_0000_0000);
    CutFour(v % 0x1_0000_0000, v / 0x1_0000_0000);
  }

  lemma CutFour(low: nat, high: nat)
    ensures Digits4(low + high * 0x1_0000_0000) == Digits4(low)
  {
    SameLowDigit(low, high * 0x100_0000);
    SecondDigit(low, high);
    ThirdDigit(low, high);
    FourthDigit(low, high);
  }

  lemma SecondDigit(low: nat, high: nat)
    ensures (low + high * 0x1_0000_0000) / 0x100 % 0x100 == low / 0x100 % 0x100
  {
    DigitStays(low, high * 0x1_0000, 0x100);
  }

  lemma ThirdDigit(low: nat, high: nat)
    ensures (low + high * 0x1_0000_0000) / 0x1_0000 % 0x100 == low / 0x1_0000 % 0x100
  {
    DigitStays(low, high * 0x100, 0x1_0000);
  }

  lemma FourthDigit(low: nat, high: nat)
    ensures (low + high * 0x1_0000_0000) / 0x100_0000 % 0x100 == low / 0x100_0000 % 0x100
  {
    DigitStays(low, high, 0x100_0000);
  }

  lemma Distribute256(q: nat, more: nat, unit: nat)
    ensures (q + more * 0x100) * unit == q * unit + more * (0x100 * unit)
  {
    assert (q + more * 0x100) * unit == q * unit + (more * 0x100) * unit;
    FragmentCount.ProductAssociates(more, 0x100, unit);
  }

  /** What is added in multiples of 256 units does not change the digit at the unit. */
  lemma DigitStays(low: nat, more: nat, unit: nat)
    requires unit > 0
    ensures (low + more * (0x100 * unit)) / unit % 0x100 == low / unit % 0x100
  {
    var q, r, added := low / unit, low % unit, more * (0x100 * unit);
    FragmentCount.DivisionAlgorithm(low, unit);
    Distribute256(q, more, unit);
    FragmentCount.DivisionIs(low + added, unit, q + more * 0x100, r);
    SameLowDigit(q, more);
  }

  lemma SameLowDigit(q: nat, more: nat)
    ensures (q + more * 0x100) % 0x100 == q % 0x100
  {
  }

  // ---- the frames of a message ----

  /** A header with these numbers and the routing of the message. */
  ghost predicate HasHeader(f: Frame, route: RoutingInfo, index: nat, count: nat, length: nat) {
    && f.header.magic == 0x1F3D_5B79 && f.header.headerSize == 32
    && f.header.fragmentIndex == index % 0x1_0000 && f.header.fragmentCount == count % 0x1_0000
    && f.header.length == length % 0x1_0000_0000
    && f.header.identifier == route.identifier && f.header.conversationIndex == route.conversationIndex
    && f.header.channelCode == route.channelCode && f.header.expectsReply == route.expectsReply
  }

  /**
   The frames sent for a message: one that announces the message and carries it; or one that announces it and carries
   nothing, and then the pieces, numbered from 1, each announcing its own length.
   */
  lemma FramesSent(route: RoutingInfo, announced: nat, data: seq<byte>, suggestedSize: nat, countsHeader: bool, i: nat)
    requires i < |FramesFor(route, announced, data, suggestedSize, countsHeader)|
    ensures var f := FramesFor(route, announced, data, suggestedSize, countsHeader)[i];
            var pieces := FragmentCount.FragmentsForLength(announced, suggestedSize);
            var count := pieces + if countsHeader then 1 else 0;
            if pieces == 1 then i == 0 && HasHeader(f, route, 0, 1, announced) && f.data == data
            else if i == 0 then HasHeader(f, route, 0, count, announced) && f.data == []
            else
              var sent := if |data| < announced then WholeBlocks(data, suggestedSize - 32) else data;
              && i <= |Pieces(sent, suggestedSize - 32)|
              && f.data == Pieces(sent, suggestedSize - 32)[i - 1]
              && HasHeader(f, route, i, count, |f.data|)
  {
    hide Pieces, DataFrames, WholeBlocks;
    var pieces := FragmentCount.FragmentsForLength(announced, suggestedSize);
    if pieces != 1 && i > 0 {
      var size := suggestedSize - 32;
      var sent := if |data| < announced then WholeBlocks(data, size) else data;
      DataFramesAreNumbered(route, pieces + if countsHeader then 1 else 0, Pieces(sent, size), 0, i - 1);
    }
  }
}
