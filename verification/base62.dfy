/**
  The base-62 encoder of utils.py: a non-negative counter becomes a string over
  lower-case letters, upper-case letters and digits (in that order), most
  significant symbol first, left-padded with the zero symbol 'a'.
  A model decoder reads such a string back, which gives round-trip and
  injectivity.
 */
module Base62 {

  const Base: nat := 62

  /** The length `int_to_base62` pads to when the caller gives none. */
  const DefaultLength: nat := 6

  /** `count` consecutive characters starting at `first`. */
  function Span(first: char, count: nat): (s: string)
    requires first as int + count <= 0xD800
    ensures |s| == count
    ensures forall i :: 0 <= i < count ==> s[i] as int == first as int + i
  {
    seq(count, i requires 0 <= i < count => (first as int + i) as char)
  }

  /** `string.ascii_lowercase + string.ascii_uppercase + string.digits`. */
  const Alphabet: string := Span('a', 26) + Span('A', 26) + Span('0', 10)

  lemma AlphabetSpelledOut()
    ensures |Alphabet| == Base
    ensures Alphabet == "abcdefghijklmnopqrstuvwxyz" + "ABCDEFGHIJKLMNOPQRSTUVWXYZ" + "0123456789"
  {
    LowerSpelledOut();
    UpperSpelledOut();
    DigitsSpelledOut();
  }

  lemma LowerSpelledOut()
    ensures Span('a', 26) == "abcdefghijklmnopqrstuvwxyz"
  {
  }

  lemma UpperSpelledOut()
    ensures Span('A', 26) == "ABCDEFGHIJKLMNOPQRSTUVWXYZ"
  {
  }

  lemma DigitsSpelledOut()
    ensures Span('0', 10) == "0123456789"
  {
  }

  /** The zero symbol, `BASE62[0]`. */
  const Zero: char := 'a'

  /** Index of `c` in the alphabet, or -1 when `c` is not a base-62 symbol. */
  function DigitValue(c: char): (d: int)
    ensures -1 <= d < Base
    ensures 0 <= d ==> |Alphabet| == Base && Alphabet[d] == c
    ensures d == -1 <==> c !in Alphabet
  {
    if 'a' <= c <= 'z' then c as int - 'a' as int
    else if 'A' <= c <= 'Z' then c as int - 'A' as int + 26
    else if '0' <= c <= '9' then c as int - '0' as int + 52
    else -1
  }

  lemma DigitValueOfSymbol(d: nat)
    requires d < Base
    ensures |Alphabet| == Base && DigitValue(Alphabet[d]) == d
  {
  }

  /** Every symbol of `s` is a base-62 symbol. */
  predicate InAlphabet(s: string)
  {
    forall i :: 0 <= i < |s| ==> DigitValue(s[i]) >= 0
  }

  function Pow(b: nat, k: nat): (p: nat)
    ensures b > 0 ==> p > 0
  {
    if k == 0 then 1 else b * Pow(b, k - 1)
  }

  /** `k` copies of `c`; none when `k` is not positive, as Python's `c * k`. */
  function Repeat(c: char, k: int): (s: string)
    ensures |s| == if k < 0 then 0 else k
    ensures forall i :: 0 <= i < |s| ==> s[i] == c
  {
    if k <= 0 then [] else [c] + Repeat(c, k - 1)
  }

  /** The plain base-62 numeral of `n`, most significant symbol first, empty for 0. */
  function Numeral(n: nat): (s: string)
    decreases n
  {
    if n == 0 then [] else Numeral(n / Base) + [Alphabet[n % Base]]
  }

  /**
    `int_to_base62(n, length)`: zero is special-cased to `length` zero symbols;
    otherwise the numeral is padded on the left up to `length` symbols and is
    never truncated.
   */
  function Encode(n: nat, length: int): (s: string)
  {
    if n == 0 then Repeat(Zero, length)
    else
      var digits := Numeral(n);
      Repeat(Zero, length - |digits|) + digits
  }

  /** The value of `s` read as base-62 digits, most significant first. */
  function Decode(s: string): (n: nat)
    requires InAlphabet(s)
  {
    if s == [] then 0
    else Decode(s[..|s| - 1]) * Base + DigitValue(s[|s| - 1])
  }

  // ----- the numeral -----

  lemma {:induction false} NumeralInAlphabet(n: nat)
    ensures InAlphabet(Numeral(n))
    decreases n
  {
    if n != 0 {
      NumeralInAlphabet(n / Base);
    }
  }

  lemma {:induction false} DecodeNumeral(n: nat)
    ensures InAlphabet(Numeral(n))
    ensures Decode(Numeral(n)) == n
    decreases n
  {
    NumeralInAlphabet(n);
    if n != 0 {
      var s := Numeral(n);
      DecodeNumeral(n / Base);
      assert s[..|s| - 1] == Numeral(n / Base);
      DigitValueOfSymbol(n % Base);
    }
  }

  /** A numeral fits in `k` symbols exactly when `n < 62^k`. */
  lemma {:induction false} NumeralLength(n: nat, k: nat)
    ensures |Numeral(n)| <= k <==> n < Pow(Base, k)
    decreases n
  {
    if n != 0 {
      if k == 0 {
        assert |Numeral(n)| >= 1;
      } else {
        NumeralLength(n / Base, k - 1);
        assert n / Base < Pow(Base, k - 1) <==> n < Base * Pow(Base, k - 1);
      }
    }
  }

  lemma InitOfConcat(a: string, t: string)
    requires t != []
    ensures (a + t)[..|a + t| - 1] == a + t[..|t| - 1]
    ensures (a + t)[|a + t| - 1] == t[|t| - 1]
  {
  }

  lemma {:induction false} DecodeLeadingZeros(k: nat, t: string)
    requires InAlphabet(t)
    ensures InAlphabet(Repeat(Zero, k) + t)
    ensures Decode(Repeat(Zero, k) + t) == Decode(t)
    decreases |t|
  {
    var s := Repeat(Zero, k) + t;
    assert InAlphabet(s) by {
      assert Zero == Alphabet[0];
    }
    if t == [] {
      assert s == Repeat(Zero, k);
      DecodeZeros(k);
    } else {
      InitOfConcat(Repeat(Zero, k), t);
      DecodeLeadingZeros(k, t[..|t| - 1]);
    }
  }

  lemma {:induction false} DecodeZeros(k: nat)
    ensures InAlphabet(Repeat(Zero, k))
    ensures Decode(Repeat(Zero, k)) == 0
    decreases k
  {
    assert Zero == Alphabet[0];
    var s := Repeat(Zero, k);
    if k != 0 {
      assert s[..|s| - 1] == Repeat(Zero, k - 1);
      DecodeZeros(k - 1);
    }
  }

  // ----- properties of the encoder -----

  /** The zero case returns what the general padding path would also produce. */
  lemma ZeroIsPadding(length: int)
    ensures Encode(0, length) == Repeat(Zero, length - |Numeral(0)|) + Numeral(0)
  {
  }

  /** Only alphabet symbols are ever emitted. */
  lemma EncodeInAlphabet(n: nat, length: int)
    ensures InAlphabet(Encode(n, length))
    ensures forall c :: c in Encode(n, length) ==> c in Alphabet
  {
    assert Alphabet[0] == Zero;
    NumeralInAlphabet(n);
  }

  /**
    The result is never shorter than `length`; it has exactly `length` symbols
    when `n < 62^length`, and more symbols (no truncation) otherwise.
   */
  lemma EncodeLength(n: nat, length: nat)
    ensures |Encode(n, length)| >= length
    ensures |Encode(n, length)| == length <==> n < Pow(Base, length)
  {
    NumeralLength(n, length);
  }

  /** Reading the encoding back as base-62 digits yields the counter. */
  lemma EncodeRoundTrip(n: nat, length: int)
    ensures InAlphabet(Encode(n, length))
    ensures Decode(Encode(n, length)) == n
  {
    EncodeInAlphabet(n, length);
    if n == 0 {
      DecodeZeros(if length < 0 then 0 else length);
    } else {
      var digits := Numeral(n);
      var pad := length - |digits|;
      DecodeNumeral(n);
      DecodeLeadingZeros(if pad < 0 then 0 else pad, digits);
    }
  }

  /** For a fixed length, distinct counters have distinct encodings. */
  lemma EncodeInjective(n: nat, m: nat, length: int)
    ensures Encode(n, length) == Encode(m, length) <==> n == m
  {
    if Encode(n, length) == Encode(m, length) {
      EncodeRoundTrip(n, length);
      EncodeRoundTrip(m, length);
    }
  }

  /** Every encoding of a positive counter, or at a positive length, is non-empty. */
  lemma EncodeNonEmpty(n: nat, length: int)
    requires n > 0 || length > 0
    ensures Encode(n, length) != ""
  {
    if n > 0 {
      assert |Numeral(n)| > 0;
    }
  }

  /**
    `int_to_base62` as written: digits are pushed least significant first by
    repeated `divmod`, zero symbols are pushed until the length is reached,
    and the list is reversed.
   */
  method IntToBase62(n: nat, length: int) returns (r: string)
    ensures r == Encode(n, length)
    ensures InAlphabet(r)
    ensures Decode(r) == n
  {
    assert Alphabet[0] == Zero;
    EncodeRoundTrip(n, length);
    if n == 0 {
      r := Repeat(Alphabet[0], length);
      return;
    }
    var s := PushDigits(n);
    s := PadWithZeros(s, length);
    r := Reversed(s);
  }

  /** The `divmod` loop: the digits of `n`, least significant first. */
  method PushDigits(n: nat) returns (s: string)
    ensures Reversed(s) == Numeral(n)
  {
    s := [];
    var m: nat := n;
    while m != 0
      invariant Numeral(m) + Reversed(s) == Numeral(n)
      decreases m
    {
      var q, d := m / Base, m % Base;
      ReversedSnoc(s, Alphabet[d]);
      s := s + [Alphabet[d]];
      m := q;
    }
  }

  /** The padding loop: zero symbols are appended until `length` is reached. */
  method PadWithZeros(digits: string, length: int) returns (s: string)
    ensures Reversed(s) == Repeat(Zero, length - |digits|) + Reversed(digits)
  {
    s := digits;
    while |s| < length
      invariant |s| >= |digits|
      invariant |s| == |digits| || |s| <= length
      invariant Reversed(s) == Repeat(Zero, |s| - |digits|) + Reversed(digits)
    {
      assert Alphabet[0] == Zero;
      ReversedSnoc(s, Alphabet[0]);
      s := s + [Alphabet[0]];
    }
    assert |s| - |digits| == if length - |digits| < 0 then 0 else length - |digits|;
  }

  function Reversed(s: string): (r: string)
    ensures |r| == |s|
  {
    if s == [] then [] else [s[|s| - 1]] + Reversed(s[..|s| - 1])
  }

  lemma ReversedSnoc(s: string, c: char)
    ensures Reversed(s + [c]) == [c] + Reversed(s)
  {
    assert (s + [c])[..|s|] == s;
  }
}
