/** Values, arrays and messages byte by byte: the literal type codes, the lengths and the header fields. */
module ValueLayout {
  import opened Bytes
  import opened PrimitiveArray
  import opened ArrayCodec
  import opened DtxMessage
  import opened MessageCodec
  import opened WireLayout
  import FragmentCount

  // ---- one value ----

  /** The type code of a value, in bytes. */
  function CodeSpelled(v: Value): seq<byte> {
    match v
    case Null => [0x00, 0x00, 0x00, 0x00]
    case String(_) => [0x01, 0x00, 0x00, 0x00]
    case Buffer(_) => [0x02, 0x00, 0x00, 0x00]
    case SignedInt32(_) => [0x03, 0x00, 0x00, 0x00]
    case SignedInt64(_) => [0x04, 0x00, 0x00, 0x00]
    case Float32(_) => [0x05, 0x00, 0x00, 0x00]
    case Float64(_) => [0x06, 0x00, 0x00, 0x00]
    case Integer(_) => [0x09, 0x00, 0x00, 0x00]
    case EmptyKey => [0x0A, 0x00, 0x00, 0x00]
  }

  function PayloadSpelled(v: Value): seq<byte> {
    match v
    case Null | EmptyKey => []
    case String(bytes) => if bytes == [] then [] else Digits4(|bytes|) + bytes
    case Buffer(bytes) => if bytes == [] then [] else Digits4(|bytes|) + bytes
    case SignedInt32(half) => Digits4(half)
    case Float32(half) => Digits4(half)
    case SignedInt64(bits) => Digits8(bits)
    case Float64(bits) => Digits8(bits)
    case Integer(bits) => Digits8(bits)
  }

  /** An item on the wire: nothing for a null; in a dictionary an empty key before it; empty bytes without a length. */
  function ItemSpelled(asDict: bool, v: Value): seq<byte> {
    if v.Null? then [] else
    (if asDict then [0x0A, 0x00, 0x00, 0x00] else []) + (CodeSpelled(v) + PayloadSpelled(v))
  }

  lemma ItemLayout(asDict: bool, v: Value)
    ensures Flatten(ItemChunks(asDict, v)) == ItemSpelled(asDict, v)
  {
    hide LittleEndian, Digits8;
    if !v.Null? {
      var payload := if v.Size() == 0 then [] else PayloadChunks(v);
      CodeWritten(v);
      PayloadLayout(v);
      FlattenConcat([LittleEndian(v.TypeCode(), 4)], payload);
      FlattenOne(LittleEndian(v.TypeCode(), 4));
      if asDict {
        WrittenDigits4(EMPTY_KEY);
        assert ItemChunks(true, v) == [LittleEndian(EMPTY_KEY, 4)] + ([LittleEndian(v.TypeCode(), 4)] + payload);
        FlattenConcat([LittleEndian(EMPTY_KEY, 4)], [LittleEndian(v.TypeCode(), 4)] + payload);
        FlattenOne(LittleEndian(EMPTY_KEY, 4));
      } else {
        assert ItemChunks(false, v) == [LittleEndian(v.TypeCode(), 4)] + payload;
      }
    }
  }

  lemma CodeWritten(v: Value)
    ensures LittleEndian(v.TypeCode(), 4) == CodeSpelled(v)
  {
    WrittenDigits4(v.TypeCode());
  }

  lemma PayloadLayout(v: Value)
    ensures Flatten(if v.Size() == 0 then [] else PayloadChunks(v)) == PayloadSpelled(v)
  {
    hide LittleEndian, Digits4, Digits8;
    match v
    case Null | EmptyKey =>
    case String(bytes) =>
      WrittenDigits4(|bytes|);
      FlattenTwo(LittleEndian(|bytes|, 4), bytes);
    case Buffer(bytes) =>
      WrittenDigits4(|bytes|);
      FlattenTwo(LittleEndian(|bytes|, 4), bytes);
    case SignedInt32(half) =>
      WrittenDigits4(half);
      FlattenOne(LittleEndian(half, 4));
    case Float32(half) =>
      WrittenDigits4(half);
      FlattenOne(LittleEndian(half, 4));
    case SignedInt64(bits) =>
      WrittenDigits8(bits);
      FlattenOne(LittleEndian(bits, 8));
    case Float64(bits) =>
      WrittenDigits8(bits);
      FlattenOne(LittleEndian(bits, 8));
    case Integer(bits) =>
      WrittenDigits8(bits);
      FlattenOne(LittleEndian(bits, 8));
  }

  /** What stands behind a type code: a length and so many bytes. */
  ghost predicate HasBytes(b: seq<byte>) {
    |b| >= 8 && 8 + Number4(b, 4) <= |b|
  }

  /** The value that the first four bytes announce, with the numbers and bytes behind them. */
  lemma ValueIsRead(b: seq<byte>)
    requires |b| >= 4
    ensures b[..4] == [0x01, 0x00, 0x00, 0x00] ==>
              NextToken(b) == if HasBytes(b) then Token(String(b[8..8 + Number4(b, 4)]), 8 + Number4(b, 4))
                              else Bad(OutOfBounds)
    ensures b[..4] == [0x02, 0x00, 0x00, 0x00] ==>
              NextToken(b) == if HasBytes(b) then Token(Buffer(b[8..8 + Number4(b, 4)]), 8 + Number4(b, 4))
                              else Bad(OutOfBounds)
    ensures b[..4] == [0x03, 0x00, 0x00, 0x00] ==>
              NextToken(b) == if |b| >= 8 then Token(SignedInt32(Number4(b, 4)), 8) else Bad(OutOfBounds)
    ensures b[..4] == [0x04, 0x00, 0x00, 0x00] ==>
              NextToken(b) == if |b| >= 12 then Token(SignedInt64(Number8(b, 4)), 12) else Bad(OutOfBounds)
    ensures b[..4] == [0x05, 0x00, 0x00, 0x00] ==>
              NextToken(b) == if |b| >= 8 then Token(Float32(Number4(b, 4)), 8) else Bad(OutOfBounds)
    ensures b[..4] == [0x06, 0x00, 0x00, 0x00] ==>
              NextToken(b) == if |b| >= 12 then Token(Float64(Number8(b, 4)), 12) else Bad(OutOfBounds)
    ensures b[..4] == [0x09, 0x00, 0x00, 0x00] ==>
              NextToken(b) == if |b| >= 12 then Token(Integer(Number8(b, 4)), 12) else Bad(OutOfBounds)
    ensures b[..4] == [0x0A, 0x00, 0x00, 0x00] ==> NextToken(b) == Token(EmptyKey, 4)
    ensures Number4(b, 0) !in {1, 2, 3, 4, 5, 6, 9, 10} ==> NextToken(b) == Bad(UnknownType)
  {
    hide ReadUint32, ReadUint64, Number8;
    ReadNumber4(b, 0);
    assert forall i | 0 <= i < 4 :: b[..4][i] == b[i];
    if |b| >= 8 {
      ReadNumber4(b, 4);
    }
    if |b| >= 12 {
      ReadNumber8(b, 4);
    }
  }

  /** The copy that a string value keeps: its bytes up to the first NUL, then zeros. */
  lemma {:induction false} CopyIsUpToNul(s: seq<byte>, i: nat)
    requires i < |s|
    ensures CopyString(s)[i] == if exists j :: 0 <= j <= i && s[j] == 0 then 0 else s[i]
    decreases i
  {
    if s[0] == 0 {
      CopyOfZeros(|s| - 1);
      if i > 0 {
        assert CopyString(s)[i] == CopyString(seq(|s| - 1, k => 0))[i - 1];
      }
    } else if i > 0 {
      CopyIsUpToNul(s[1..], i - 1);
      assert CopyString(s)[i] == CopyString(s[1..])[i - 1];
      if j :| 0 <= j <= i && s[j] == 0 {
        assert s[1..][j - 1] == 0;
      }
    }
  }

  // ---- an array ----

  function ItemsSpelled(asDict: bool, items: seq<Value>): seq<byte> {
    if items == [] then [] else ItemSpelled(asDict, items[0]) + ItemsSpelled(asDict, items[1..])
  }

  lemma {:induction false} ItemsLayout(asDict: bool, items: seq<Value>)
    ensures Flatten(BodyChunks(asDict, items)) == ItemsSpelled(asDict, items)
    decreases |items|
  {
    hide ItemSpelled, ItemChunks;
    if items == [] {
    } else {
      ItemsLayout(asDict, items[1..]);
      FlattenConcat(ItemChunks(asDict, items[0]), BodyChunks(asDict, items[1..]));
      ItemLayout(asDict, items[0]);
    }
  }

  /**
   The capacity for a size: it has bits 0 to 3 and bit 9 clear and is otherwise the larger of the size and 0x1F0, plus
   0x20F, in 64 bits. There is only one such number.
   */
  ghost predicate IsCapacity(size: uint64, c: uint64) {
    var v := ((if size < 0x1F0 then 0x1F0 else size) + 0x20F) % TWO_TO_THE_64;
    c % 0x10 == 0 && c / 0x200 % 2 == 0 && (0 <= v - c < 0x10 || 0x200 <= v - c < 0x210)
  }

  lemma CapacityIs(size: uint64)
    ensures IsCapacity(size, Capacity(size))
    ensures size <= 0x1F0 ==> Capacity(size) == 0x1F0
    ensures 0x1F0 <= size < TWO_TO_THE_64 - 0x20F ==> size <= Capacity(size)
  {
    hide Capacity, IsCapacity;
    CapacityIsMasked(size);
    if size <= 0x1F0 {
      SmallCapacity(size);
    } else if size < TWO_TO_THE_64 - 0x20F {
      CapacitySuffices(size);
    }
  }

  /** A number by the bits the mask clears and those it keeps. */
  lemma MaskParts(v: nat) returns (q: nat, b: nat, h: nat, l: nat)
    ensures b < 2 && h < 0x20 && l < 0x10 && v == q * 0x400 + b * 0x200 + h * 0x10 + l
    ensures v % 0x10 == l && v / 0x200 % 2 == b
  {
    var high, low := v / 0x200, v % 0x200;
    FragmentCount.DivisionAlgorithm(v, 0x200);
    q, b, h, l := high / 2, high % 2, low / 0x10, low % 0x10;
    FragmentCount.RemainderIs(v, 0x10, high * 0x20 + h, l);
  }

  lemma MaskedForm(q: nat, h: nat)
    requires h < 0x20
    ensures (q * 0x400 + h * 0x10) % 0x10 == 0 && (q * 0x400 + h * 0x10) / 0x200 % 2 == 0
  {
    FragmentCount.RemainderIs(q * 0x400 + h * 0x10, 0x10, q * 0x40 + h, 0);
    FragmentCount.RemainderIs(q * 0x400 + h * 0x10, 0x200, q * 2, h * 0x10);
  }

  lemma CapacityIsMasked(size: uint64)
    ensures IsCapacity(size, Capacity(size))
  {
    var v := ((if size < 0x1F0 then 0x1F0 else size) + 0x20F) % TWO_TO_THE_64;
    var q, b, h, l := MaskParts(v);
    MaskedForm(q, h);
    assert Capacity(size) == q * 0x400 + h * 0x10;
  }

  lemma SmallCapacity(size: uint64)
    requires size <= 0x1F0
    ensures Capacity(size) == 0x1F0
  {
  }

  lemma CapacitySuffices(size: uint64)
    requires 0x1F0 <= size < TWO_TO_THE_64 - 0x20F
    ensures size <= Capacity(size)
  {
    hide Capacity;
    CapacityIsMasked(size);
    NoWrap(size + 0x20F);
  }

  lemma NoWrap(n: nat)
    requires n < TWO_TO_THE_64
    ensures n % TWO_TO_THE_64 == n
  {
  }

  lemma CapacityIsUnique(size: uint64, c: uint64, c': uint64)
    requires IsCapacity(size, c) && IsCapacity(size, c')
    ensures c == c'
  {
    var q, b, h, l := MaskParts(c);
    var q', b', h', l' := MaskParts(c');
    var v := ((if size < 0x1F0 then 0x1F0 else size) + 0x20F) % TWO_TO_THE_64;
    SameMaskParts(q, h, v - c, q', h', v - c');
  }

  /** Cleared bits and kept bits do not overlap. */
  lemma SameMaskParts(q: nat, h: nat, d: int, q': nat, h': nat, d': int)
    requires h < 0x20 && h' < 0x20 && q * 0x400 + h * 0x10 + d == q' * 0x400 + h' * 0x10 + d'
    requires (0 <= d < 0x10 || 0x200 <= d < 0x210) && (0 <= d' < 0x10 || 0x200 <= d' < 0x210)
    ensures q == q' && h == h'
  {
    assert 0 <= h * 0x10 + d < 0x400 && 0 <= h' * 0x10 + d' < 0x400;
    assert q == q';
  }

  /** How long the items are announced to be; an array without any announces 2^64 - 16. */
  function AnnouncedSize(asDict: bool, items: seq<Value>): nat {
    if items == [] then 0xFFFF_FFFF_FFFF_FFF0 else |ItemsSpelled(asDict, items)| + 4 * EmptyCount(items)
  }

  /** An encoded array: capacity, announced size, items. */
  lemma ArrayLayout(asDict: bool, items: seq<Value>)
    requires LengthOf(asDict, items) < TWO_TO_THE_64
    ensures var b := ArrayBytes(asDict, items);
            && |b| >= 16
            && AnnouncedSize(asDict, items) < TWO_TO_THE_64
            && IsCapacity(AnnouncedSize(asDict, items), Number8(b, 0))
            && Number8(b, 8) == AnnouncedSize(asDict, items)
            && b[16..] == ItemsSpelled(asDict, items)
  {
    hide LittleEndian, Capacity, IsCapacity, ReadUint64, Number8, Flatten, BodyChunks, ItemsSpelled, EmptyCount;
    var size := SizeField(asDict, items);
    LengthAccounting(asDict, items);
    ItemsLayout(asDict, items);
    SizeFieldIs(asDict, items);
    CapacityIs(size);
    ArrayBytesParts(asDict, items);
    ArrayStarts(asDict, items);
    ReadNumber8(ArrayBytes(asDict, items), 0);
    ReadNumber8(ArrayBytes(asDict, items), 8);
  }

  lemma SizeFieldIs(asDict: bool, items: seq<Value>)
    requires LengthOf(asDict, items) < TWO_TO_THE_64
    ensures SizeField(asDict, items) == AnnouncedSize(asDict, items)
  {
    hide BodyLength, BodyChunks, Flatten, ItemsSpelled, EmptyCount;
    LengthAccounting(asDict, items);
    ItemsLayout(asDict, items);
    if items != [] {
      WrapsBack(BodyLength(asDict, items));
    }
  }

  lemma WrapsBack(n: nat)
    requires n < TWO_TO_THE_64
    ensures (0x10 + n + (TWO_TO_THE_64 - 0x10)) % TWO_TO_THE_64 == n
  {
  }

  lemma ArrayStarts(asDict: bool, items: seq<Value>)
    ensures |ArrayBytes(asDict, items)| >= 16
    ensures ReadUint64(ArrayBytes(asDict, items), 0) == Capacity(SizeField(asDict, items))
  {
    hide LittleEndian, Capacity, ReadUint64, SizeField, BodyChunks;
    var size := SizeField(asDict, items);
    var first, second, body := LittleEndian(Capacity(size), 8), LittleEndian(size, 8), BodyChunks(asDict, items);
    FlattenConcat([first, second], body);
    FlattenTwo(first, second);
    ConcatAssociates(first, second, Flatten(body));
    EmptyEnds(first + (second + Flatten(body)));
    ReadUint64Back([], Capacity(size), second + Flatten(body));
  }

  /** With the default capacity of 0x1F0 for all small arrays. */
  lemma SmallArrayCapacity(asDict: bool, items: seq<Value>)
    requires LengthOf(asDict, items) < TWO_TO_THE_64 && AnnouncedSize(asDict, items) <= 0x1F0
    ensures |ArrayBytes(asDict, items)| >= 16 && Number8(ArrayBytes(asDict, items), 0) == 0x1F0
  {
    hide IsCapacity, Number8, Capacity, AnnouncedSize;
    ArrayLayout(asDict, items);
    CapacityIs(AnnouncedSize(asDict, items));
    CapacityIsUnique(AnnouncedSize(asDict, items), Capacity(AnnouncedSize(asDict, items)),
                     Number8(ArrayBytes(asDict, items), 0));
  }

  /** An array is read if it has a header whose size field covers exactly the rest; then it is what its values keep. */
  lemma ArrayIsRead(b: seq<byte>)
    requires |b| < TWO_TO_THE_64
    ensures |b| < 16 || Number8(b, 8) != |b| - 16 ==> DecodeArray(b) == NullPointer
    ensures |b| >= 16 && Number8(b, 8) == |b| - 16 ==>
              DecodeArray(b) == match ParseTokens(b[16..])
                                case Tokens(values) => Items(Kept(values))
                                case Broken(error) => Undefined(error)
  {
    hide ReadUint64, Number8, ParseTokens, Kept;
    if |b| >= 16 {
      ReadNumber8(b, 8);
    }
  }

  // ---- what is kept of the values ----

  /** Values that are neither null nor a key are all kept, in order. */
  lemma {:induction false} PlainItemsAreAll(items: seq<Value>)
    requires forall i | 0 <= i < |items| :: !items[i].Null? && !items[i].EmptyKey?
    ensures WithoutNullsAndKeys(items) == items
    decreases |items|
  {
    if items == [] {
    } else {
      PlainItemsAreAll(items[1..]);
    }
  }

  /** So an array of such values, none of them an empty string or buffer, comes back as it is. */
  lemma PlainArrayRoundTrip(asDict: bool, items: seq<Value>)
    requires AllConstructed(items) && LengthOf(asDict, items) < TWO_TO_THE_64 && items != [] && NoEmptyBytes(items)
    requires forall i | 0 <= i < |items| :: !items[i].Null? && !items[i].EmptyKey?
    ensures DecodeArray(ArrayBytes(asDict, items)) == Items(items)
  {
    hide DecodeArray, ArrayBytes, LengthOf;
    ArrayRoundTripIff(asDict, items);
    PlainItemsAreAll(items);
  }

  /** Nulls and keys are left out wherever they stand. */
  lemma {:induction false} NullsAndKeysAreLeftOut(before: seq<Value>, v: Value, after: seq<Value>)
    requires v.Null? || v.EmptyKey?
    ensures WithoutNullsAndKeys(before + [v] + after) == WithoutNullsAndKeys(before + after)
    decreases |before|
  {
    if before == [] {
      EmptyEnds(after);
      EmptyEnds([v]);
      assert ([v] + after)[1..] == after;
      EmptyEnds(WithoutNullsAndKeys(after));
    } else {
      NullsAndKeysAreLeftOut(before[1..], v, after);
      assert (before + [v] + after)[1..] == before[1..] + [v] + after;
      assert (before + after)[1..] == before[1..] + after;
    }
  }

  // ---- a message ----

  /** A serialized message: type, announced length of the arguments, that and the payload's length, then both. */
  lemma MessageLayout(c: Content)
    requires WithinLimits(c)
    ensures var b, empties := MessageBytes(c), if c.arguments.Some? then EmptyCount(c.arguments.value) else 0;
            var list := if c.arguments.Some? && c.arguments.value != [] then ArrayBytes(c.asDict, c.arguments.value)
                        else [];
            && |b| >= 16
            && Number4(b, 0) == c.messageType
            && Number4(b, 4) == |list| + 4 * empties
            && Number8(b, 8) == |list| + 4 * empties + |c.payload|
            && b[16..] == list + c.payload
  {
    hide MessageBytes, HeaderBytes, ReadUint32, ReadUint64, Number4, Number8, ArrayBytes, AllConstructed, EmptyCount;
    hide BodyLength;
    var b := MessageBytes(c);
    MessageBytesParts(c);
    MessageLengthAccounting(c);
    HeaderReads(c, ArgumentBytes(c) + c.payload);
    TakeAndDrop(HeaderBytes(c), ArgumentBytes(c) + c.payload);
    NoItemsNoEmpties();
    ReadNumber4(b, 0);
    ReadNumber4(b, 4);
    ReadNumber8(b, 8);
  }

  lemma NoItemsNoEmpties()
    ensures EmptyCount([]) == 0
  {
  }

  /** A message is read by the same offsets, when it is as long as it says. */
  lemma MessageIsRead(b: seq<byte>)
    requires |b| >= 16 && Number4(b, 4) <= Number8(b, 8) && 16 + Number8(b, 8) <= |b|
    ensures var arguments, end := 16 + Number4(b, 4), 16 + Number8(b, 8);
            var list := if Number4(b, 4) == 0 then NullPointer else DecodeArray(b[16..arguments]);
            DecodeMessage(b)
            == match list
               case Undefined(error) => Unchecked(error)
               case NullPointer => Decoded(Number4(b, 0), None, b[arguments..end])
               case Items(items) => Decoded(Number4(b, 0), Some(items), b[arguments..end])
  {
    hide ReadUint32, ReadUint64, Number4, Number8, DecodeArray;
    ReadNumber4(b, 0);
    ReadNumber4(b, 4);
    ReadNumber8(b, 8);
  }
}
