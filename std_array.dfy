/** `std::array<T, N>`: a one-dimensional array type of fixed size N. When
    an array value is received, the element count announced on the wire
    must equal N, or the receive fails with `bad_array_size`. */
module StdArray {
  import opened Wrappers
  import Bytes

  datatype ArrayError = BadArraySize(message: string)

  /** The C++ cast of a `std::size_t` to the 32-bit signed `size_type`: the
      value is taken modulo 2^32 and read as two's complement. */
  function ToSizeType(n: nat): (r: int)
    ensures Bytes.IsInt32(r)
    ensures (r - n) % 0x1_0000_0000 == 0
    ensures n < 0x8000_0000 ==> r == n
  {
    var m := n % 0x1_0000_0000;
    if m < 0x8000_0000 then m else m - 0x1_0000_0000
  }

  /** `std::to_string` of an integer: decimal digits, a leading '-' for a
      negative value. */
  function Dec(n: int): (s: string)
    ensures |s| > 0
  {
    if n < 0 then "-" + DecNat(-n) else DecNat(n)
  }

  function DecNat(n: nat): (s: string)
    ensures |s| > 0 && forall i :: 0 <= i < |s| ==> '0' <= s[i] <= '9'
    ensures n >= 10 ==> s[0] != '0'
  {
    if n < 10 then [Digit(n)] else DecNat(n / 10) + [Digit(n % 10)]
  }

  function Digit(d: nat): (c: char)
    requires d < 10
    ensures '0' <= c <= '9'
  {
    ['0', '1', '2', '3', '4', '5', '6', '7', '8', '9'][d]
  }

  /** Reading a string of decimal digits back. */
  function ParseNat(s: string): (r: Option<nat>)
    ensures s == [] ==> r.None?
  {
    if s == [] then None
    else if !('0' <= s[|s| - 1] <= '9') then None
    else if |s| == 1 then Some((s[0] as int - '0' as int))
    else match ParseNat(s[..|s| - 1])
      case None => None
      case Some(m) => Some(m * 10 + (s[|s| - 1] as int - '0' as int))
  }

  function ParseDec(s: string): (r: Option<int>)
  {
    if s != [] && s[0] == '-' then
      match ParseNat(s[1..])
      case None => None
      case Some(m) => var v: int := -(m as int); Some(v)
    else ParseNat(s)
  }

  lemma DigitValue(d: nat)
    requires d < 10
    ensures Digit(d) as int - '0' as int == d
  {
  }

  lemma {:induction false} ParseNatDecNat(n: nat)
    ensures ParseNat(DecNat(n)) == Some(n)
  {
    DigitValue(n % 10);
    if n >= 10 {
      ParseNatDecNat(n / 10);
      ParseNatSnoc(DecNat(n / 10), Digit(n % 10), n / 10);
    }
  }

  /** Appending a digit to a decimal string: ten times the value, plus the digit. */
  lemma ParseNatSnoc(s: string, c: char, m: nat)
    requires ParseNat(s) == Some(m) && '0' <= c <= '9'
    ensures ParseNat(s + [c]) == Some(m * 10 + (c as int - '0' as int))
  {
    assert (s + [c])[..|s|] == s;
  }

  /** The numbers in an error message can be read back exactly. */
  lemma ParseDecDec(n: int)
    ensures ParseDec(Dec(n)) == Some(n)
  {
    if n < 0 {
      var digits := DecNat(-n);
      assert Dec(n) == "-" + digits;
      assert ("-" + digits)[0] == '-' && ("-" + digits)[1..] == digits;
      ParseNatDecNat(-n);
    } else {
      ParseNatDecNat(n);
    }
  }

  const MessageHead: string := "received size "
  const MessageMiddle: string := " does not match array size "

  /** The text of a `bad_array_size` refusal. */
  function MismatchMessage(received: int, arraySize: nat): (m: string)
    ensures |m| > |MessageHead| + |MessageMiddle|
    ensures m[..|MessageHead|] == MessageHead
  {
    MessageHead + Dec(received) + MessageMiddle + Dec(arraySize)
  }

  /** `fit_array_size` for an array of N elements and a received size: it
      compares against N cast to `size_type`; the message reports N itself. */
  function FitArraySize(arraySize: nat, received: int): (r: Outcome<ArrayError>)
    ensures r.Pass? <==> received == ToSizeType(arraySize)
    ensures r.Fail? ==> r.error == BadArraySize(MismatchMessage(received, arraySize))
  {
    if received != ToSizeType(arraySize) then Fail(BadArraySize(MismatchMessage(received, arraySize)))
    else Pass
  }

  /** For any array size that fits `size_type`, a receive is accepted
      exactly when the announced count equals the array size. */
  lemma FitsExactlyTheArraySize(arraySize: nat, received: int)
    requires arraySize < 0x8000_0000
    ensures FitArraySize(arraySize, received).Pass? <==> received == arraySize
  {
  }

  /** The message of a refusal names both sizes, each readable back from
      its place in the message. */
  lemma {:induction false} MessageNamesBothSizes(received: int, arraySize: nat)
    ensures var m := MismatchMessage(received, arraySize);
      var k := |MessageHead| + |Dec(received)|;
      m[..|MessageHead|] == MessageHead &&
      ParseDec(m[|MessageHead|..k]) == Some(received) &&
      m[k..k + |MessageMiddle|] == MessageMiddle &&
      ParseDec(m[k + |MessageMiddle|..]) == Some(arraySize)
  {
    Pieces(MessageHead, Dec(received), MessageMiddle, Dec(arraySize));
    ParseDecDec(received);
    ParseDecDec(arraySize);
  }

  lemma Pieces<T>(a: seq<T>, b: seq<T>, c: seq<T>, d: seq<T>)
    ensures var m := a + b + c + d;
      m[..|a|] == a && m[|a|..|a| + |b|] == b &&
      m[|a| + |b|..|a| + |b| + |c|] == c && m[|a| + |b| + |c|..] == d
  {
  }
}
