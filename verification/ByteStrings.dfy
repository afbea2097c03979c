/** Byte strings, the hash function as a parameter, and the two text forms of a byte string
    that the programs use: big-endian integers and hexadecimal. */
module ByteStrings {

  type byte = x: int | 0 <= x < 256
  type Bytes = seq<byte>

  /** A 32-byte string: the result of SHA-256. */
  type Digest = b: Bytes | |b| == 32 witness Zeros(32)

  function Zeros(n: nat): (b: Bytes)
    ensures |b| == n && forall i :: 0 <= i < n ==> b[i] == 0
  {
    seq(n, _ => 0)
  }

  /** SHA-256 is a parameter of every definition that hashes. Nothing is assumed about it but the
      length of its result; in particular it is never assumed to be injective. */
  type Hash = Bytes -> Digest

  const ZERO_DIGEST: Digest := Zeros(32)

  datatype Option<+T> = None | Some(value: T)

  /** Two different inputs with one hash value. */
  predicate Collision(h: Hash, pair: (Bytes, Bytes)) {
    pair.0 != pair.1 && h(pair.0) == h(pair.1)
  }

  /** Two concatenations of equally long left parts agree exactly when both parts do. */
  lemma SplitConcat<T>(a: seq<T>, b: seq<T>, c: seq<T>, d: seq<T>)
    requires a + b == c + d
    requires |a| == |c| || |b| == |d|
    ensures a == c && b == d
  {
    assert |a| == |c| by {
      assert |a + b| == |c + d|;
    }
    assert a == (a + b)[..|a|] == (c + d)[..|c|] == c;
    assert b == (a + b)[|a|..] == (c + d)[|c|..] == d;
  }

  // ---------- Big-endian integers ----------

  function Pow(base: nat, e: nat): (r: nat)
    ensures base > 0 ==> r > 0
  {
    if e == 0 then 1 else base * Pow(base, e - 1)
  }

  lemma PowAdd(base: nat, d: nat, e: nat)
    ensures Pow(base, d + e) == Pow(base, d) * Pow(base, e)
  {
    if d > 0 {
      PowAdd(base, d - 1, e);
      assert Pow(base, d + e) == base * (Pow(base, d - 1) * Pow(base, e));
    }
  }

  /** `int.from_bytes(b, 'big')`. */
  function FromBigEndian(b: Bytes): nat {
    if |b| == 0 then 0 else FromBigEndian(b[..|b| - 1]) * 256 + b[|b| - 1]
  }

  /** `n.to_bytes(len, 'big')` for an `n` that fits. */
  function ToBigEndian(n: nat, len: nat): (b: Bytes)
    ensures |b| == len
  {
    if len == 0 then [] else ToBigEndian(n / 256, len - 1) + [n % 256]
  }

  lemma {:induction false} BigEndianBound(b: Bytes)
    ensures FromBigEndian(b) < Pow(256, |b|)
  {
    if |b| > 0 {
      BigEndianBound(b[..|b| - 1]);
    }
  }

  lemma {:induction false} ToFromBigEndian(b: Bytes)
    ensures ToBigEndian(FromBigEndian(b), |b|) == b
  {
    if |b| > 0 {
      ToFromBigEndian(b[..|b| - 1]);
      assert b == b[..|b| - 1] + [b[|b| - 1]];
    }
  }

  lemma {:induction false} FromToBigEndian(n: nat, len: nat)
    requires n < Pow(256, len)
    ensures FromBigEndian(ToBigEndian(n, len)) == n
  {
    if len > 0 {
      FromToBigEndian(n / 256, len - 1);
    }
  }

  // ---------- Hexadecimal ----------

  predicate IsLowerHexDigit(c: char) { '0' <= c <= '9' || 'a' <= c <= 'f' }

  predicate IsHexDigit(c: char) { IsLowerHexDigit(c) || 'A' <= c <= 'F' }

  predicate IsLowerHex(s: string) { forall i :: 0 <= i < |s| ==> IsLowerHexDigit(s[i]) }

  function DigitChar(d: nat): (c: char)
    requires d < 16
    ensures IsLowerHexDigit(c) && DigitValue(c) == d
  {
    if d < 10 then ('0' as int + d) as char else ('a' as int + d - 10) as char
  }

  function DigitValue(c: char): (d: nat)
    requires IsHexDigit(c)
    ensures d < 16
  {
    if '0' <= c <= '9' then c as int - '0' as int
    else if 'a' <= c <= 'f' then c as int - 'a' as int + 10
    else c as int - 'A' as int + 10
  }

  /** `Buffer.toString("hex")`: two lowercase digits a byte. */
  function ToHex(b: Bytes): (s: string)
    ensures |s| == 2 * |b| && IsLowerHex(s)
  {
    if |b| == 0 then "" else [DigitChar(b[0] / 16), DigitChar(b[0] % 16)] + ToHex(b[1..])
  }

  /** `Buffer.from(s, "hex")`: decodes pairs of digits and stops silently at the first pair that is
      not one, dropping an odd last digit. */
  function FromHex(s: string): Bytes {
    if |s| < 2 || !IsHexDigit(s[0]) || !IsHexDigit(s[1]) then []
    else [DigitValue(s[0]) * 16 + DigitValue(s[1])] + FromHex(s[2..])
  }

  lemma {:induction false} FromToHex(b: Bytes)
    ensures FromHex(ToHex(b)) == b
  {
    if |b| > 0 {
      FromToHex(b[1..]);
      assert ToHex(b)[2..] == ToHex(b[1..]);
    }
  }

  lemma DigitCharValue(c: char)
    requires IsLowerHexDigit(c)
    ensures DigitChar(DigitValue(c)) == c
  {
  }

  /** The canonical spelling of a byte string is its own: lowercase text of even length. */
  lemma {:induction false} ToFromHex(s: string)
    requires IsLowerHex(s) && |s| % 2 == 0
    ensures ToHex(FromHex(s)) == s
  {
    if |s| > 0 {
      ToFromHex(s[2..]);
      DigitCharValue(s[0]);
      DigitCharValue(s[1]);
      PairToHex(DigitValue(s[0]), DigitValue(s[1]), FromHex(s[2..]));
      assert s == [s[0], s[1]] + s[2..];
    }
  }

  lemma PairToHex(hi: nat, lo: nat, rest: Bytes)
    requires hi < 16 && lo < 16
    ensures ToHex([hi * 16 + lo] + rest) == [DigitChar(hi), DigitChar(lo)] + ToHex(rest)
  {
    assert ([hi * 16 + lo] + rest)[1..] == rest;
  }

  // ---------- Case ----------

  function LowerChar(c: char): char {
    if 'A' <= c <= 'Z' then (c as int + 32) as char else c
  }

  /** `toLowerCase` on ASCII text. */
  function Lower(s: string): (t: string)
    ensures |t| == |s| && forall i :: 0 <= i < |t| ==> t[i] == LowerChar(s[i])
  {
    seq(|s|, i requires 0 <= i < |s| => LowerChar(s[i]))
  }
}
