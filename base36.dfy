/** Base-36 numbers of the kind SQLSTATE codes are: digits 0-9 then letters
    A-Z for 10-35, most significant first. `b36tol` reads either case,
    `ltob36` writes upper case, five characters wide. */
module Base36 {
  import opened Wrappers
  import opened Arith

  /** SQLSTATE codes are five characters. */
  const Width: nat := 5

  function Pow36(w: nat): (r: nat)
    ensures r >= 1
  {
    if w == 0 then 1 else 36 * Pow36(w - 1)
  }

  /** The value of one base-36 character, in either case. */
  function DigitValue(c: char): (r: Option<nat>)
    ensures r.Some? ==> r.value < 36
    ensures r.Some? <==> ('0' <= c <= '9' || 'A' <= c <= 'Z' || 'a' <= c <= 'z')
  {
    if '0' <= c <= '9' then Some(c as int - '0' as int)
    else if 'A' <= c <= 'Z' then Some(c as int - 'A' as int + 10)
    else if 'a' <= c <= 'z' then Some(c as int - 'a' as int + 10)
    else None
  }

  /** The upper-case character of a digit value. */
  function DigitChar(d: nat): (c: char)
    requires d < 36
    ensures DigitValue(c) == Some(d)
    ensures !('a' <= c <= 'z')
  {
    if d < 10 then ('0' as int + d) as char else ('A' as int + d - 10) as char
  }

  /** `b36tol`: the value of a base-36 string; a character outside 0-9,
      A-Z, a-z makes it invalid. */
  function B36ToL(s: string): (r: Option<nat>)
    ensures r.Some? ==> r.value < Pow36(|s|)
  {
    if s == [] then Some(0)
    else match (B36ToL(s[..|s| - 1]), DigitValue(s[|s| - 1]))
      case (Some(hi), Some(d)) => Some(hi * 36 + d)
      case _ => None
  }

  /** The low w base-36 digits of n, upper case, zero-padded on the left. */
  function Digits(n: nat, w: nat): (s: string)
    ensures |s| == w
    ensures forall i :: 0 <= i < |s| ==> !('a' <= s[i] <= 'z')
  {
    if w == 0 then [] else Digits(n / 36, w - 1) + [DigitChar(n % 36)]
  }

  /** `ltob36`: five upper-case base-36 digits. */
  function LToB36(n: nat): (s: string)
    ensures |s| == Width
  {
    Digits(n, Width)
  }

  lemma {:induction false} DigitsRoundTrip(n: nat, w: nat)
    ensures B36ToL(Digits(n, w)) == Some(n % Pow36(w))
  {
    if w > 0 {
      var s := Digits(n, w);
      assert s[..|s| - 1] == Digits(n / 36, w - 1);
      DigitsRoundTrip(n / 36, w - 1);
      ModOfPower(n, w);
    }
  }

  /** (n / 36) % 36^(w-1) * 36 + n % 36 == n % 36^w */
  lemma ModOfPower(n: nat, w: nat)
    requires w > 0
    ensures (n / 36) % Pow36(w - 1) * 36 + n % 36 == n % Pow36(w)
  {
    var p := Pow36(w - 1);
    var q, r := n / 36, n % 36;
    var a, b := q / p, q % p;
    assert n == (a * p + b) * 36 + r;
    assert n == a * (36 * p) + (b * 36 + r);
    assert 0 <= b * 36 + r < 36 * p;
    DivModUnique(n, 36 * p, a, b * 36 + r);
  }

  lemma DivModUnique(n: nat, m: nat, a: nat, b: nat)
    requires m > 0 && n == a * m + b && b < m
    ensures n % m == b
  {
    var q, r := n / m, n % m;
    assert n == q * m + r;
    if a < q {
      MulLe(a + 1, q, m);
    } else if a > q {
      MulLe(q + 1, a, m);
    }
    assert a == q;
  }

  /** `b36tol(ltob36(n)) == n` for every n that five digits can hold. */
  lemma ReadBackWritten(n: nat)
    requires n < Pow36(Width)
    ensures B36ToL(LToB36(n)) == Some(n)
  {
    DigitsRoundTrip(n, Width);
    SmallMod(n, Pow36(Width));
  }

  lemma SmallMod(n: nat, m: nat)
    requires n < m
    ensures n % m == n
  {
  }

  /** Writing back what was read gives the upper-case spelling of a valid
      five-character code. */
  lemma {:induction false} WriteBackRead(s: string)
    requires B36ToL(s).Some?
    ensures Digits(B36ToL(s).value, |s|) == Upper(s)
  {
    if s != [] {
      var init := s[..|s| - 1];
      var hi := B36ToL(init).value;
      var d := DigitValue(s[|s| - 1]).value;
      WriteBackRead(init);
      var n := hi * 36 + d;
      assert n / 36 == hi && n % 36 == d;
      UpperChar(s[|s| - 1], d);
      assert s == init + [s[|s| - 1]];
      UpperSnoc(init, s[|s| - 1]);
    }
  }

  function UpperOf(c: char): char
  {
    if 'a' <= c <= 'z' then (c as int - 'a' as int + 'A' as int) as char else c
  }

  /** Upper case of a string, letter by letter. */
  function Upper(s: string): (r: string)
    ensures |r| == |s|
  {
    if s == [] then [] else Upper(s[..|s| - 1]) + [UpperOf(s[|s| - 1])]
  }

  function Lower(s: string): (r: string)
    ensures |r| == |s|
  {
    if s == [] then [] else Lower(s[..|s| - 1]) + [LowerOf(s[|s| - 1])]
  }

  function LowerOf(c: char): char
  {
    if 'A' <= c <= 'Z' then (c as int - 'A' as int + 'a' as int) as char else c
  }

  lemma UpperChar(c: char, d: nat)
    requires DigitValue(c) == Some(d)
    ensures DigitChar(d) == UpperOf(c)
  {
  }

  lemma LowerSnoc(s: string, c: char)
    ensures Lower(s + [c]) == Lower(s) + [LowerOf(c)]
  {
    assert (s + [c])[..|s|] == s;
  }

  lemma UpperSnoc(s: string, c: char)
    ensures Upper(s + [c]) == Upper(s) + [UpperOf(c)]
  {
    assert (s + [c])[..|s|] == s;
  }

  /** `b36tol` does not care about case: lower case reads the same. */
  lemma {:induction false} LowerReadsTheSame(s: string)
    ensures B36ToL(Lower(s)) == B36ToL(s)
  {
    if s != [] {
      var init, c := s[..|s| - 1], s[|s| - 1];
      LowerReadsTheSame(init);
      assert Lower(s)[..|s| - 1] == Lower(init);
      CaseOfChar(c);
    }
  }

  /** Upper case reads the same. */
  lemma {:induction false} UpperReadsTheSame(s: string)
    ensures B36ToL(Upper(s)) == B36ToL(s)
  {
    if s != [] {
      var init, c := s[..|s| - 1], s[|s| - 1];
      UpperReadsTheSame(init);
      assert Upper(s)[..|s| - 1] == Upper(init);
      CaseOfChar(c);
    }
  }

  lemma CaseOfChar(c: char)
    ensures DigitValue(LowerOf(c)) == DigitValue(c)
    ensures DigitValue(UpperOf(c)) == DigitValue(c)
  {
  }

  /** Reading a code one character at a time. */
  lemma ReadSnoc(s: string, c: char, hi: nat, d: nat)
    requires B36ToL(s) == Some(hi) && DigitValue(c) == Some(d)
    ensures B36ToL(s + [c]) == Some(hi * 36 + d)
  {
    assert (s + [c])[..|s|] == s;
  }

  /** The SQLSTATE HV001 (`fdw_out_of_memory`) reads as 29999809. */
  lemma ReadHV001()
    ensures B36ToL("HV001") == Some(29999809)
  {
    assert B36ToL([]) == Some(0);
    ReadSnoc([], 'H', 0, 17);
    ReadSnoc("H", 'V', 17, 31);
    ReadSnoc("HV", '0', 643, 0);
    ReadSnoc("HV0", '0', 23148, 0);
    assert [] + ['H'] == "H" && "H" + ['V'] == "HV" && "HV" + ['0'] == "HV0";
    assert "HV0" + ['0'] == "HV00" && "HV00" + ['1'] == "HV001";
    ReadSnoc("HV00", '1', 833328, 1);
  }

  /** The lower-case spelling reads the same. */
  lemma ReadLowerHV001()
    ensures B36ToL("hv001") == Some(29999809)
  {
    ReadHV001();
    LowerReadsTheSame("HV001");
    LowerSnoc([], 'H');
    LowerSnoc("H", 'V');
    LowerSnoc("HV", '0');
    LowerSnoc("HV0", '0');
    LowerSnoc("HV00", '1');
    assert [] + ['H'] == "H" && "H" + ['V'] == "HV" && "HV" + ['0'] == "HV0";
    assert "HV0" + ['0'] == "HV00" && "HV00" + ['1'] == "HV001";
    assert Lower("HV001") == "hv001";
  }

  /** 29999809 is written as HV001. */
  lemma WriteHV001()
    ensures LToB36(29999809) == "HV001"
  {
    assert Digits(0, 0) == [];
    assert Digits(17, 1) == "H";
    assert Digits(643, 2) == "HV";
    assert Digits(23148, 3) == "HV0";
    assert Digits(833328, 4) == "HV00";
    assert Digits(29999809, 5) == "HV001";
  }
}
