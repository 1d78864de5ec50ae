/** Bytes, fixed-width little-endian integers and concatenation: the vocabulary of the wire format. */
module Bytes {
  type byte = x: int | 0 <= x < 0x100
  type uint16 = x: int | 0 <= x < 0x1_0000
  type uint32 = x: int | 0 <= x < 0x1_0000_0000

  type uint64 = x: int | 0 <= x < 0x1_0000_0000_0000_0000

  const TWO_TO_THE_32 := 0x1_0000_0000
  const TWO_TO_THE_64 := 0x1_0000_0000_0000_0000

  datatype Option<T> = None | Some(value: T)

  function Pow256(n: nat): (p: nat)
    ensures p > 0
  {
    if n == 0 then 1 else 256 * Pow256(n - 1)
  }

  lemma PowersOf256()
    ensures Pow256(2) == 0x1_0000 && Pow256(4) == TWO_TO_THE_32 && Pow256(8) == TWO_TO_THE_64
  {
    assert Pow256(3) == 0x100_0000;
    assert Pow256(6) == 0x1_0000_0000_0000;
  }

  /** The `n` low-order bytes of `v`, least significant first. */
  function LittleEndian(v: nat, n: nat): (s: seq<byte>)
    ensures |s| == n
  {
    if n == 0 then [] else [v % 256] + LittleEndian(v / 256, n - 1)
  }

  function FromLittleEndian(s: seq<byte>): (v: nat)
    ensures v < Pow256(|s|)
  {
    if s == [] then 0 else s[0] + 256 * FromLittleEndian(s[1..])
  }

  lemma {:induction false} DecodeOfEncode(v: nat, n: nat)
    requires v < Pow256(n)
    ensures FromLittleEndian(LittleEndian(v, n)) == v
  {
    if n == 0 {
    } else {
      DecodeOfEncode(v / 256, n - 1);
      assert LittleEndian(v, n)[1..] == LittleEndian(v / 256, n - 1);
    }
  }

  lemma {:induction false} EncodeOfDecode(s: seq<byte>)
    ensures LittleEndian(FromLittleEndian(s), |s|) == s
  {
    hide Pow256;
    if s == [] {
    } else {
      var v, rest := FromLittleEndian(s), FromLittleEndian(s[1..]);
      EncodeOfDecode(s[1..]);
      assert v % 256 == s[0] && v / 256 == rest;
      assert s == [s[0]] + s[1..];
    }
  }

  function ReadUint16(s: seq<byte>, at: nat): (v: uint16)
    requires at + 2 <= |s|
  {
    PowersOf256();
    FromLittleEndian(s[at..at + 2])
  }

  function ReadUint32(s: seq<byte>, at: nat): (v: uint32)
    requires at + 4 <= |s|
  {
    PowersOf256();
    FromLittleEndian(s[at..at + 4])
  }

  function ReadUint64(s: seq<byte>, at: nat): (v: uint64)
    requires at + 8 <= |s|
  {
    PowersOf256();
    FromLittleEndian(s[at..at + 8])
  }

  /** Reading back an encoded integer that sits between `before` and `after`. */
  lemma ReadBack(before: seq<byte>, v: nat, n: nat, after: seq<byte>, s: seq<byte>)
    requires v < Pow256(n)
    requires s == before + LittleEndian(v, n) + after
    ensures FromLittleEndian(s[|before|..|before| + n]) == v
  {
    assert s[|before|..|before| + n] == LittleEndian(v, n);
    DecodeOfEncode(v, n);
  }

  lemma SliceOfDrop<T>(s: seq<T>, at: nat, lo: nat, hi: nat)
    requires lo <= hi && at + hi <= |s|
    ensures s[at..][lo..hi] == s[at + lo..at + hi]
  {
  }

  lemma SliceOfSlice<T>(s: seq<T>, from: nat, to: nat, lo: nat, hi: nat)
    requires lo <= hi && from + hi <= to <= |s|
    ensures s[from..to][lo..hi] == s[from + lo..from + hi]
  {
    var a, b := s[from..to][lo..hi], s[from + lo..from + hi];
    forall k | 0 <= k < |a| ensures a[k] == b[k] {
      assert a[k] == s[from..to][lo + k];
    }
  }

  lemma DropOfDrop<T>(s: seq<T>, a: nat, b: nat)
    requires a + b <= |s|
    ensures s[a..][b..] == s[a + b..]
  {
  }

  lemma DropOfConcat<T>(s: seq<T>, t: seq<T>, n: nat)
    requires n <= |s|
    ensures (s + t)[n..] == s[n..] + t
  {
  }

  lemma ConcatAssociates<T>(a: seq<T>, b: seq<T>, c: seq<T>)
    ensures a + (b + c) == (a + b) + c
  {
  }

  lemma EmptyEnds<T>(s: seq<T>)
    ensures [] + s == s && s + [] == s && s[0..] == s && s[|s|..] == []
  {
  }

  function Flatten<T>(parts: seq<seq<T>>): seq<T>
  {
    if parts == [] then [] else parts[0] + Flatten(parts[1..])
  }

  lemma {:induction false} FlattenConcat<T>(a: seq<seq<T>>, b: seq<seq<T>>)
    ensures Flatten(a + b) == Flatten(a) + Flatten(b)
  {
    if a == [] {
      assert a + b == b;
    } else {
      FlattenConcat(a[1..], b);
      DropOfConcat(a, b, 1);
      ConcatAssociates(a[0], Flatten(a[1..]), Flatten(b));
    }
  }

  lemma FlattenSnoc<T>(a: seq<seq<T>>, last: seq<T>)
    ensures Flatten(a + [last]) == Flatten(a) + last
  {
    FlattenConcat(a, [last]);
    assert Flatten([last]) == last + Flatten([]);
  }

  lemma FlattenOne<T>(a: seq<T>)
    ensures Flatten([a]) == a
  {
    assert Flatten([a]) == a + Flatten([]);
  }

  lemma FlattenTwo<T>(a: seq<T>, b: seq<T>)
    ensures Flatten([a, b]) == a + b
  {
    FlattenOne(b);
    assert [a, b][1..] == [b];
  }

  lemma FlattenThree<T>(a: seq<T>, b: seq<T>, c: seq<T>)
    ensures Flatten([a, b, c]) == a + (b + c)
  {
    FlattenTwo(b, c);
    assert [a, b, c][1..] == [b, c];
  }

  lemma JoinSlices<T>(s: seq<T>, mid: nat, end: nat)
    requires mid <= end <= |s|
    ensures s[..mid] + s[mid..end] == s[..end]
  {
  }

  lemma TakeAndDrop<T>(s: seq<T>, t: seq<T>)
    ensures (s + t)[..|s|] == s && (s + t)[|s|..] == t
  {
  }
}
