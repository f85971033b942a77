/** Bytes, fixed-width big-endian integers, decimal numerals and the few
    byte-string searches the server uses. Text is modelled by its UTF-8 bytes. */
module Bytes {

  import opened Wrappers

  type Byte = b: int | 0 <= b < 256

  /** UTF-8 text, as Rust's `str` stores it. */
  type Str = seq<Byte>

  /** 2^64 and 2^63: the ranges of `u64` and `i64`. */
  const U64_LIMIT: nat := 0x1_0000_0000_0000_0000
  const I64_LIMIT: nat := 0x8000_0000_0000_0000

  predicate IsU64(n: int) { 0 <= n < U64_LIMIT }
  predicate IsI64(n: int) { -(I64_LIMIT as int) <= n < I64_LIMIT }

  function Pow256(k: nat): (p: nat)
    ensures p > 0
  {
    if k == 0 then 1 else 256 * Pow256(k - 1)
  }

  lemma Pow256Of8()
    ensures Pow256(8) == U64_LIMIT
  {
  }

  // ---------------------------------------------------------------------
  // Big-endian fixed-width integers (byteorder's `BigEndian`)
  // ---------------------------------------------------------------------

  /** The `k` low-order base-256 digits of `n`, most significant first. */
  function BeBytes(n: nat, k: nat): (r: seq<Byte>)
    ensures |r| == k
  {
    if k == 0 then [] else BeBytes(n / 256, k - 1) + [n % 256]
  }

  /** The unsigned number a big-endian byte string denotes. */
  function BeValue(s: seq<Byte>): (v: nat)
    ensures v < Pow256(|s|)
  {
    if |s| == 0 then 0 else BeValue(s[..|s| - 1]) * 256 + s[|s| - 1]
  }

  lemma {:induction false} BeValueOfBeBytes(n: nat, k: nat)
    requires n < Pow256(k)
    ensures BeValue(BeBytes(n, k)) == n
  {
    if k > 0 {
      var r := BeBytes(n, k);
      var q := n / 256;
      assert n == q * 256 + n % 256;
      assert q * 256 <= n < Pow256(k - 1) * 256;
      assert q < Pow256(k - 1);
      assert r[..k - 1] == BeBytes(q, k - 1);
      BeValueOfBeBytes(q, k - 1);
      assert BeValue(r) == q * 256 + n % 256;
    }
  }

  lemma {:induction false} BeBytesOfBeValue(s: seq<Byte>)
    ensures BeBytes(BeValue(s), |s|) == s
  {
    if |s| > 0 {
      var k := |s| - 1;
      BeBytesOfBeValue(s[..k]);
      assert BeValue(s) / 256 == BeValue(s[..k]);
      assert BeValue(s) % 256 == s[k];
      assert s == s[..k] + [s[k]];
    }
  }

  /** `write_u64::<BigEndian>`. */
  function U64Bytes(n: nat): (r: seq<Byte>)
    requires n < U64_LIMIT
    ensures |r| == 8
  {
    BeBytes(n, 8)
  }

  lemma U64RoundTrip(n: nat)
    requires n < U64_LIMIT
    ensures BeValue(U64Bytes(n)) == n
  {
    Pow256Of8();
    BeValueOfBeBytes(n, 8);
  }

  /** `write_i64::<BigEndian>`: two's complement in eight bytes. */
  function I64Bytes(x: int): (r: seq<Byte>)
    requires IsI64(x)
    ensures |r| == 8
  {
    U64Bytes(if x < 0 then x + U64_LIMIT else x)
  }

  /** `read_i64::<BigEndian>`. */
  function I64Value(s: seq<Byte>): (x: int)
    requires |s| == 8
    ensures IsI64(x)
  {
    Pow256Of8();
    var v := BeValue(s);
    if v >= I64_LIMIT then v - U64_LIMIT else v
  }

  lemma I64RoundTrip(x: int)
    requires IsI64(x)
    ensures I64Value(I64Bytes(x)) == x
  {
    U64RoundTrip(if x < 0 then x + U64_LIMIT else x);
  }

  // ---------------------------------------------------------------------
  // ASCII and decimal numerals
  // ---------------------------------------------------------------------

  predicate IsAscii(s: string) {
    forall i | 0 <= i < |s| :: s[i] as int < 128
  }

  /** The bytes of an ASCII literal. */
  function Ascii(s: string): (r: Str)
    requires IsAscii(s)
    ensures |r| == |s|
    ensures forall i | 0 <= i < |s| :: r[i] == s[i] as int
  {
    if |s| == 0 then [] else [s[0] as int as Byte] + Ascii(s[1..])
  }

  const SLASH: Byte := 47
  const DOT: Byte := 46
  const COMMA: Byte := 44
  const EQUALS: Byte := 61
  const HYPHEN: Byte := 45
  const NEWLINE: Byte := 10

  predicate IsDigit(b: Byte) { 48 <= b <= 57 }

  predicate AllDigits(s: Str) {
    forall i | 0 <= i < |s| :: IsDigit(s[i])
  }

  /** The number an ASCII digit string denotes (Rust's `u64::from_str`
      without the width check). */
  function DigitsValue(s: Str): nat
    requires AllDigits(s)
  {
    if |s| == 0 then 0 else DigitsValue(s[..|s| - 1]) * 10 + (s[|s| - 1] - 48)
  }

  /** `format!("{}", n)`: the shortest decimal numeral of `n`. */
  function Decimal(n: nat): (r: Str)
    ensures 0 < |r|
    ensures AllDigits(r)
    ensures |r| > 1 ==> r[0] != 48
  {
    if n < 10 then [48 + n] else Decimal(n / 10) + [48 + n % 10]
  }

  lemma {:induction false} DecimalValue(n: nat)
    ensures DigitsValue(Decimal(n)) == n
  {
    if n >= 10 {
      var r := Decimal(n);
      assert r[..|r| - 1] == Decimal(n / 10);
      DecimalValue(n / 10);
    }
  }

  /** Two numbers with the same numeral are equal: `Decimal` loses nothing. */
  lemma DecimalInjective(m: nat, n: nat)
    requires Decimal(m) == Decimal(n)
    ensures m == n
  {
    DecimalValue(m);
    DecimalValue(n);
  }

  // ---------------------------------------------------------------------
  // Searching byte strings
  // ---------------------------------------------------------------------

  /** `str::starts_with`. */
  predicate StartsWith(s: Str, prefix: Str) {
    |prefix| <= |s| && s[..|prefix|] == prefix
  }

  predicate OccursAt(s: Str, pat: Str, i: nat) {
    i + |pat| <= |s| && s[i..i + |pat|] == pat
  }

  /** The position of the first occurrence of `pat` in `s` at or after `from`. */
  function FindFrom(s: Str, pat: Str, from: nat): (r: Option<nat>)
    decreases |s| - from
    ensures r.Some? ==> from <= r.value && OccursAt(s, pat, r.value)
    ensures r.Some? ==> forall j | from <= j < r.value :: !OccursAt(s, pat, j)
    ensures r.None? ==> forall j | from <= j :: !OccursAt(s, pat, j)
  {
    if from + |pat| > |s| then None
    else if OccursAt(s, pat, from) then Some(from)
    else FindFrom(s, pat, from + 1)
  }

  /** `str::contains` with a string pattern. */
  predicate Contains(s: Str, pat: Str) {
    FindFrom(s, pat, 0).Some?
  }

  /** Concatenation regroups freely. */
  lemma Associative(a: seq<Byte>, b: seq<Byte>, c: seq<Byte>)
    ensures (a + b) + c == a + (b + c)
  {
  }

  lemma ContainsMeansOccurs(s: Str, pat: Str)
    ensures Contains(s, pat) <==> exists i: nat :: OccursAt(s, pat, i)
  {
  }

  /** `str::replacen(pat, rep, 1)`: the first occurrence of `pat` replaced. */
  function ReplaceFirst(s: Str, pat: Str, rep: Str): (r: Str)
    ensures FindFrom(s, pat, 0).None? ==> r == s
    ensures FindFrom(s, pat, 0).Some? ==> |r| == |s| - |pat| + |rep|
  {
    match FindFrom(s, pat, 0)
    case None => s
    case Some(i) => s[..i] + rep + s[i + |pat|..]
  }

  /** Removing a leading occurrence with `replacen` is plain suffix-taking. */
  lemma ReplaceLeading(s: Str, prefix: Str)
    requires StartsWith(s, prefix)
    ensures ReplaceFirst(s, prefix, []) == s[|prefix|..]
  {
    assert OccursAt(s, prefix, 0);
  }

}
