/** The in-place reversal and the decimal printer of src/str.c over byte memory. */
module Str {
  import opened Sequences

  type byte = b: nat | b < 256

  const ZERO: byte := 48  // '0'

  /** a3_string_reverse on the first len bytes of mem. */
  method ReverseInPlace(mem: array<byte>, len: nat)
    requires len <= mem.Length
    modifies mem
    ensures mem[..len] == Reverse(old(mem[..len])) && mem[len..] == old(mem[len..])
  {
    for i := 0 to len / 2
      invariant forall k | 0 <= k < len ::
                  mem[k] == if k < i || k >= len - i then old(mem[len - 1 - k]) else old(mem[k])
      invariant mem[len..] == old(mem[len..])
    {
      var tmp := mem[i];
      mem[i] := mem[len - 1 - i];
      mem[len - 1 - i] := tmp;
    }
  }

  // ----- Decimal notation

  predicate IsDigit(b: byte) {
    ZERO <= b < ZERO + 10
  }

  /** The value of a decimal numeral. */
  function Eval(s: seq<byte>): nat
    requires forall i | 0 <= i < |s| :: IsDigit(s[i])
  {
    if s == [] then 0
    else
      assert IsDigit(s[|s| - 1]);
      10 * Eval(s[..|s| - 1]) + s[|s| - 1] - ZERO
  }

  /** A numeral without leading zeros; zero is the numeral "0". */
  predicate Canonical(s: seq<byte>) {
    s != [] && (forall i | 0 <= i < |s| :: IsDigit(s[i])) && (|s| > 1 ==> s[0] != ZERO)
  }

  /** The decimal digits of v, most significant first. */
  function Digits(v: nat): (s: seq<byte>)
    ensures |s| > 0
  {
    if v < 10 then [ZERO + v] else Digits(v / 10) + [ZERO + v % 10]
  }

  function Pow10(n: nat): (p: nat)
    ensures p > 0
  {
    if n == 0 then 1 else 10 * Pow10(n - 1)
  }

  /** Printing gives a canonical numeral that evaluates to the number. */
  lemma {:induction false} DigitsEvaluate(v: nat)
    ensures Canonical(Digits(v)) && Eval(Digits(v)) == v
    ensures v > 0 ==> Digits(v)[0] != ZERO
  {
    if v < 10 {
    } else {
      DigitsEvaluate(v / 10);
      assert Digits(v)[..|Digits(v)| - 1] == Digits(v / 10);
    }
  }

  /** A canonical numeral is the printed form of its value. */
  lemma {:induction false} EvalPrints(s: seq<byte>)
    requires Canonical(s)
    ensures Digits(Eval(s)) == s
  {
    if |s| == 1 {
    } else {
      var rest := s[..|s| - 1];
      EvalPrints(rest);
      PositiveNumeral(rest);
      assert s == rest + [s[|s| - 1]] && IsDigit(s[|s| - 1]);
      SplitLastDigit(Eval(rest), s[|s| - 1] - ZERO);
    }
  }

  lemma SplitLastDigit(high: nat, low: nat)
    requires low < 10
    ensures (10 * high + low) / 10 == high && (10 * high + low) % 10 == low
  {
  }

  lemma PositiveNumeral(s: seq<byte>)
    requires Canonical(s) && s[0] != ZERO
    ensures Eval(s) > 0
  {
    if |s| == 1 {
    } else {
      PositiveNumeral(s[..|s| - 1]);
    }
  }

  /** A number has at most n digits exactly if it is below ten to the n. */
  lemma {:induction false} DigitCount(v: nat, n: nat)
    requires n > 0
    ensures |Digits(v)| <= n <==> v < Pow10(n)
  {
    if n > 1 && v >= 10 {
      DigitCount(v / 10, n - 1);
    } else if v < 10 {
      assert Pow10(1) == 10;
      Pow10Monotone(1, n);
    } else {
      assert Pow10(1) == 10;
    }
  }

  lemma Pow10Monotone(m: nat, n: nat)
    requires m <= n
    ensures Pow10(m) <= Pow10(n)
  {
    if m == n {
    } else {
      Pow10Monotone(m, n - 1);
    }
  }

  lemma {:induction false} Pow10Add(m: nat, n: nat)
    ensures Pow10(m + n) == Pow10(m) * Pow10(n)
  {
    if m == 0 {
    } else {
      Pow10Add(m - 1, n);
    }
  }

  /** Twenty digits are enough for every size_t. */
  lemma TwentyDigits()
    ensures Pow10(20) == 100_000_000_000_000_000_000
  {
    assert Pow10(1) == 10 && Pow10(2) == 100;
    Pow10Add(2, 2);
    Pow10Add(4, 1);
    Pow10Add(5, 5);
    Pow10Add(10, 10);
  }

  lemma LastDigit(v: nat)
    ensures var last := |Digits(v)| - 1;
            && Digits(v)[last] == ZERO + v % 10 && (v < 10 <==> last == 0)
            && (v >= 10 ==> Digits(v)[..last] == Digits(v / 10))
  {
  }

  lemma ReversedTail(low: seq<byte>, digits: seq<byte>)
    requires |low| <= |digits| && forall k | 0 <= k < |low| :: low[k] == digits[|digits| - 1 - k]
    ensures Reverse(low) == digits[|digits| - |low|..]
  {
  }

  /** How many bytes printing into a string of len bytes writes. The loop bound admits one byte
      more than the string has. */
  function BytesWritten(len: nat, number: nat): (n: nat)
    ensures 0 < n <= |Digits(number)| && (n <= len <==> len > 0 && number < Pow10(len))
  {
    if len > 0 then
      DigitCount(number, len);
      if |Digits(number)| <= len then |Digits(number)| else len + 1
    else 1
  }

  /** Ten printed into a string of one byte writes two. */
  lemma TenOverrunsOneByte()
    ensures Digits(10) == [49, 48] && BytesWritten(1, 10) == 2
  {
    assert Digits(10) == Digits(1) + [ZERO];
  }

  /** The digit loop: the low digits, least significant first. */
  method WriteDigits(mem: array<byte>, len: nat, number: nat) returns (n: nat)
    requires BytesWritten(len, number) <= mem.Length
    modifies mem
    ensures n == BytesWritten(len, number)
    ensures forall k | 0 <= k < n :: mem[..n][k] == Digits(number)[|Digits(number)| - 1 - k]
    ensures mem[n..] == old(mem[n..])
  {
    ghost var digits := Digits(number);
    var i, v := 0, number;
    while true
      invariant i < |digits| && i <= len && digits[..|digits| - i] == Digits(v)
      invariant forall k | 0 <= k < i :: mem[k] == digits[|digits| - 1 - k]
      invariant forall k | i <= k < mem.Length :: mem[k] == old(mem[k])
      decreases v
    {
      LastDigit(v);
      mem[i] := ZERO + v % 10;
      v := v / 10;
      i := i + 1;
      if !(i <= len && v != 0) {
        break;
      }
    }
    n := i;
  }

  /** a3_string_itoa_into on a string of len bytes: the whole numeral, inside the string, exactly
      if the number is below ten to the len; otherwise its low len + 1 digits, the last one past
      the string. */
  method ItoaInto(mem: array<byte>, len: nat, number: nat) returns (n: nat)
    requires len <= mem.Length && BytesWritten(len, number) <= mem.Length
    modifies mem
    ensures n == BytesWritten(len, number)
    ensures n == if |Digits(number)| <= len then |Digits(number)| else len + 1
    ensures n <= len <==> len > 0 && number < Pow10(len)
    ensures mem[..n] == Digits(number)[|Digits(number)| - n..]
    ensures mem[n..] == old(mem[n..])
  {
    n := WriteDigits(mem, len, number);
    ReversedTail(mem[..n], Digits(number));
    ReverseInPlace(mem, n);
  }
}
