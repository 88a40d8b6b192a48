/**
 * Bytes, decimal numerals and big-endian integers: the small encodings the
 * streamer's wire formats are made of (`format!("{}", n)`, `str::parse::<u32>()`,
 * `usize::from_be_bytes`).
 */
module Bytes {
  import opened Wrappers

  type byte = x: int | 0 <= x < 256

  /** `n` zero bytes: a freshly allocated `[0u8; n]` buffer. */
  function Zeros(n: nat): (r: seq<byte>)
    ensures |r| == n && forall i :: 0 <= i < n ==> r[i] == 0
  {
    seq(n, _ => 0)
  }

  // ---------------------------------------------------------------------------
  // Decimal numerals
  // ---------------------------------------------------------------------------

  predicate IsDigit(c: char) {
    '0' <= c <= '9'
  }

  predicate AllDigits(s: string) {
    forall i :: 0 <= i < |s| ==> IsDigit(s[i])
  }

  function DigitChar(d: nat): (c: char)
    requires d < 10
    ensures IsDigit(c) && c as int - '0' as int == d
  {
    (48 + d) as char
  }

  /** The value of a string of ASCII digits, most significant first. */
  function DigitsValue(s: string): nat
    requires AllDigits(s)
  {
    if s == [] then 0 else DigitsValue(s[..|s| - 1]) * 10 + (s[|s| - 1] as int - '0' as int)
  }

  /** `format!("{}", n)`: the shortest decimal numeral of `n`. */
  function Decimal(n: nat): (s: string)
    ensures |s| > 0 && AllDigits(s)
    ensures s[0] == '0' ==> s == "0"
    decreases n
  {
    if n < 10 then [DigitChar(n)] else Decimal(n / 10) + [DigitChar(n % 10)]
  }

  lemma {:induction false} DecimalValue(n: nat)
    ensures DigitsValue(Decimal(n)) == n
    decreases n
  {
    if n >= 10 {
      var s := Decimal(n);
      assert s[..|s| - 1] == Decimal(n / 10);
      DecimalValue(n / 10);
    }
  }

  /**
   * Rust's `str::parse` for an unsigned integer type whose values lie below
   * `bound`: an optional `+`, then at least one ASCII digit and nothing else,
   * and the value must fit the type.
   */
  function ParseUnsigned(s: string, bound: nat): (r: Option<nat>)
    ensures r.Some? ==> r.value < bound
    ensures r.Some? ==> |s| > 0 && (IsDigit(s[0]) || s[0] == '+')
  {
    var digits := if |s| > 0 && s[0] == '+' then s[1..] else s;
    if |digits| == 0 || !AllDigits(digits) then None
    else if DigitsValue(digits) < bound then Some(DigitsValue(digits))
    else None
  }

  const U32_BOUND: nat := 0x1_0000_0000
  const USIZE_BOUND: nat := 0x1_0000_0000_0000_0000

  /** A numeral printed by `format!("{}", n)` parses back to `n` whenever `n` fits. */
  lemma ParseDecimal(n: nat, bound: nat)
    requires n < bound
    ensures ParseUnsigned(Decimal(n), bound) == Some(n)
  {
    DecimalValue(n);
  }

  /** The empty string and a lone sign are not numbers. */
  lemma ParseRejectsEmpty(bound: nat)
    ensures ParseUnsigned("", bound) == None
    ensures ParseUnsigned("+", bound) == None
  {
  }

  // ---------------------------------------------------------------------------
  // Big-endian unsigned integers
  // ---------------------------------------------------------------------------

  function Pow256(k: nat): (p: nat)
    ensures p >= 1
  {
    if k == 0 then 1 else 256 * Pow256(k - 1)
  }

  /** `uN::from_be_bytes`: the value of the bytes read most significant first. */
  function BeValue(s: seq<byte>): (v: nat)
    ensures v < Pow256(|s|)
  {
    if s == [] then 0 else BeValue(s[..|s| - 1]) * 256 + s[|s| - 1]
  }

  /** `n.to_be_bytes()` for a `k`-byte integer type. */
  function Be(n: nat, k: nat): (r: seq<byte>)
    ensures |r| == k
  {
    if k == 0 then [] else Be(n / 256, k - 1) + [n % 256]
  }

  /** Encoding a value that fits in `k` bytes and decoding it gives it back. */
  lemma {:induction false} BeValueOfBe(n: nat, k: nat)
    requires n < Pow256(k)
    ensures BeValue(Be(n, k)) == n
  {
    if k > 0 {
      var r := Be(n, k);
      assert r[..k - 1] == Be(n / 256, k - 1);
      assert n / 256 < Pow256(k - 1);
      BeValueOfBe(n / 256, k - 1);
    }
  }

  /** Decoding `k` bytes and encoding the value in `k` bytes gives the same bytes. */
  lemma {:induction false} BeOfBeValue(s: seq<byte>)
    ensures Be(BeValue(s), |s|) == s
  {
    if s != [] {
      var k := |s|;
      var v := BeValue(s);
      var front := s[..k - 1];
      assert v / 256 == BeValue(front) && v % 256 == s[k - 1];
      BeOfBeValue(front);
      assert s == front + [s[k - 1]];
    }
  }

  /** `isize::MAX` on a 64-bit target: the largest length a Rust allocation may request. */
  const ISIZE_MAX: nat := 0x7FFF_FFFF_FFFF_FFFF

  /** The first byte carries the highest weight. */
  lemma {:induction false} BeValueFront(s: seq<byte>)
    requires s != []
    ensures BeValue(s) == s[0] as nat * Pow256(|s| - 1) + BeValue(s[1..])
  {
    var k := |s|;
    if k == 1 {
      assert s[..0] == [] && s[1..] == [];
    } else {
      var front := s[..k - 1];
      var tail := s[1..];
      BeValueFront(front);
      assert front[0] == s[0] && front[1..] == tail[..k - 2] && tail[k - 2] == s[k - 1];
      var h := s[0] as nat;
      var p := Pow256(k - 2);
      var b := BeValue(front[1..]);
      assert BeValue(front) == h * p + b;
      assert BeValue(tail) == b * 256 + s[k - 1];
      assert BeValue(s) == BeValue(front) * 256 + s[k - 1];
      assert Pow256(k - 1) == 256 * p;
      Distribute(h, p, b, s[k - 1]);
    }
  }

  lemma Distribute(h: nat, p: nat, b: nat, last: nat)
    ensures (h * p + b) * 256 + last == h * (256 * p) + (b * 256 + last)
  {
  }

  /** An eight-byte big-endian length exceeds `isize::MAX` exactly when its first byte has the top bit set. */
  lemma BeValueAboveIsizeMax(s: seq<byte>)
    requires |s| == 8
    ensures BeValue(s) > ISIZE_MAX <==> s[0] >= 0x80
  {
    BeValueFront(s);
    assert Pow256(7) == 0x100_0000_0000_0000;
    assert BeValue(s[1..]) < Pow256(7);
  }

  /** Eight zero bytes encode zero. */
  lemma BeValueZeros(k: nat)
    ensures BeValue(Zeros(k)) == 0
  {
    if k > 0 {
      assert Zeros(k)[..k - 1] == Zeros(k - 1);
      BeValueZeros(k - 1);
    }
  }
}
