/** Bytes on the wire: unsigned and two's-complement big-endian integers of
    a fixed width, as written by the stream writer for every scalar. */
module Bytes {

  type Byte = b: int | 0 <= b < 256

  /** 256 to the power w: one more than the largest w-byte unsigned value. */
  function Pow256(w: nat): (r: nat)
    ensures r >= 1
  {
    if w == 0 then 1 else 256 * Pow256(w - 1)
  }

  /** Unsigned big-endian encoding of n on exactly w bytes, most significant first. */
  function ToBE(n: nat, w: nat): (s: seq<Byte>)
    requires n < Pow256(w)
    ensures |s| == w
  {
    if w == 0 then [] else ToBE(n / 256, w - 1) + [n % 256]
  }

  /** The unsigned value of a big-endian byte string. */
  function FromBE(s: seq<Byte>): (n: nat)
    ensures n < Pow256(|s|)
  {
    if s == [] then 0 else FromBE(s[..|s| - 1]) * 256 + s[|s| - 1]
  }

  lemma {:induction false} FromBEToBE(n: nat, w: nat)
    requires n < Pow256(w)
    ensures FromBE(ToBE(n, w)) == n
  {
    if w > 0 {
      var s := ToBE(n, w);
      assert s[..|s| - 1] == ToBE(n / 256, w - 1);
      FromBEToBE(n / 256, w - 1);
    }
  }

  lemma {:induction false} ToBEFromBE(s: seq<Byte>)
    ensures ToBE(FromBE(s), |s|) == s
  {
    if s != [] {
      var init := s[..|s| - 1];
      ToBEFromBE(init);
      var n := FromBE(s);
      assert n / 256 == FromBE(init) && n % 256 == s[|s| - 1];
      assert s == init + [s[|s| - 1]];
    }
  }

  /** The two's-complement range of a w-byte signed integer. */
  predicate InSignedRange(x: int, w: nat)
  {
    w > 0 && -(Pow256(w) / 2) <= x < Pow256(w) / 2
  }

  /** Two's-complement big-endian encoding of x on w bytes. */
  function ToSignedBE(x: int, w: nat): (s: seq<Byte>)
    requires InSignedRange(x, w)
    ensures |s| == w
  {
    ToBE(if x < 0 then x + Pow256(w) else x, w)
  }

  /** The signed value of a two's-complement big-endian byte string. */
  function FromSignedBE(s: seq<Byte>): (x: int)
    ensures s != [] ==> InSignedRange(x, |s|)
  {
    var u := FromBE(s);
    if u >= Pow256(|s|) / 2 then u - Pow256(|s|) else u
  }

  lemma FromSignedBEToSignedBE(x: int, w: nat)
    requires InSignedRange(x, w)
    ensures FromSignedBE(ToSignedBE(x, w)) == x
  {
    FromBEToBE(if x < 0 then x + Pow256(w) else x, w);
  }

  // The widths the protocol uses.
  const Int32Bytes: nat := 4
  const Int64Bytes: nat := 8
  const TwoTo32: nat := 0x1_0000_0000

  lemma Pow256Widths()
    ensures Pow256(4) == TwoTo32
    ensures Pow256(8) == 0x1_0000_0000_0000_0000
  {
  }

  /** A 4-byte signed size header (`size_type`). */
  predicate IsInt32(x: int) { -0x8000_0000 <= x < 0x8000_0000 }

  function Int32BE(x: int): (s: seq<Byte>)
    requires IsInt32(x)
    ensures |s| == 4
  {
    Pow256Widths();
    ToSignedBE(x, 4)
  }

  /** A 4-byte unsigned type id (`oid_t`). */
  function Uint32BE(x: nat): (s: seq<Byte>)
    requires x < TwoTo32
    ensures |s| == 4
  {
    Pow256Widths();
    ToBE(x, 4)
  }

  lemma Int32RoundTrip(x: int)
    requires IsInt32(x)
    ensures FromSignedBE(Int32BE(x)) == x
  {
    Pow256Widths();
    FromSignedBEToSignedBE(x, 4);
  }

  lemma Uint32RoundTrip(x: nat)
    requires x < TwoTo32
    ensures FromBE(Uint32BE(x)) == x
  {
    Pow256Widths();
    FromBEToBE(x, 4);
  }

  /** Appending a byte shifts the value up by one byte. */
  lemma FromBESnoc(s: seq<Byte>, b: Byte)
    ensures FromBE(s + [b]) == FromBE(s) * 256 + b
  {
    assert (s + [b])[..|s|] == s;
  }

  /** A one-byte value written on four bytes: three zero bytes, then the value. */
  lemma SmallHeader(x: nat)
    requires x < 256
    ensures IsInt32(x) && x < TwoTo32
    ensures Int32BE(x) == [0, 0, 0, x] && Uint32BE(x) == [0, 0, 0, x]
  {
    Pow256Widths();
    assert ToBE(0, 1) == [0];
    assert ToBE(0, 2) == [0, 0];
    assert ToBE(0, 3) == [0, 0, 0];
    assert ToBE(x, 4) == ToBE(0, 3) + [x];
  }

  lemma AppendAssoc(a: seq<Byte>, b: seq<Byte>, c: seq<Byte>)
    ensures a + (b + c) == a + b + c
  {
  }
}
