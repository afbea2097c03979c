/** One-time codes: random bytes as Crockford base-32 digits through a 32-bit bit buffer that
    overflows, grouping for reading aloud, and the normalisation applied to what is typed back. */
module OneTimeCode {
  import opened ByteStrings
  import opened ModularField

  const CROCKFORD: string := "0123456789ABCDEFGHJKMNPQRSTVWXYZ"

  /** `CROCKFORD[d]`: the digits and the capital letters without I, L, O and U. */
  function Symbol(d: nat): (c: char)
    requires d < 32
    ensures '0' <= c <= '9' || ('A' <= c <= 'Z' && c != 'I' && c != 'L' && c != 'O' && c != 'U')
  {
    if d < 10 then ('0' as int + d) as char
    else if d < 18 then ('A' as int + d - 10) as char
    else if d < 20 then ('J' as int + d - 18) as char
    else if d < 22 then ('M' as int + d - 20) as char
    else if d < 27 then ('P' as int + d - 22) as char
    else ('V' as int + d - 27) as char
  }

  lemma SymbolIsCrockford(d: nat)
    requires d < 32
    ensures |CROCKFORD| == 32 && Symbol(d) == CROCKFORD[d]
  {
  }

  lemma SymbolInjective(d: nat, e: nat)
    requires d < 32 && e < 32 && Symbol(d) == Symbol(e)
    ensures d == e
  {
  }

  function Symbols(digits: seq<nat>): (s: string)
    requires forall i :: 0 <= i < |digits| ==> digits[i] < 32
    ensures |s| == |digits| && forall i :: 0 <= i < |s| ==> s[i] == Symbol(digits[i])
  {
    seq(|digits|, i requires 0 <= i < |digits| => Symbol(digits[i]))
  }

  // ---------- The true bit stream ----------

  /** `n` as `len` base-32 digits, most significant first. */
  function Digits(n: nat, len: nat): (d: seq<nat>)
    ensures |d| == len && forall i :: 0 <= i < len ==> d[i] < 32
  {
    if len == 0 then [] else Digits(n / 32, len - 1) + [n % 32]
  }

  function FromDigits(d: seq<nat>): nat {
    if |d| == 0 then 0 else FromDigits(d[..|d| - 1]) * 32 + d[|d| - 1]
  }

  lemma {:induction false} DigitsFrom(d: seq<nat>)
    requires forall i :: 0 <= i < |d| ==> d[i] < 32
    ensures Digits(FromDigits(d), |d|) == d
  {
    if |d| > 0 {
      DigitsFrom(d[..|d| - 1]);
      assert d == d[..|d| - 1] + [d[|d| - 1]];
    }
  }

  /** Digit `k` is bits `5k .. 5k + 4` of the number, counted from its most significant end. */
  lemma {:induction false} DigitAt(n: nat, len: nat, k: nat)
    requires k < len
    ensures Digits(n, len)[k] == n / Pow(32, len - 1 - k) % 32
  {
    if k == len - 1 {
      assert Pow(32, 0) == 1;
    } else {
      DigitAt(n / 32, len - 1, k);
      DivDiv(n, 32, Pow(32, len - 2 - k));
    }
  }

  lemma DivDiv(n: nat, a: nat, b: nat)
    requires a > 0 && b > 0
    ensures a * b > 0 && n / a / b == n / (a * b)
  {
    var q, r := n / a / b, n / a % b;
    assert n == a * (n / a) + n % a && n / a == b * q + r;
    Distribute(a, b * q, r);
    assert a * (b * q) == (a * b) * q;
    MulAtLeast(a, b - r);
    Distribute(a, b, r);
    assert 0 <= a * r;
    DivModUnique(a * b, n, q, a * r + n % a);
  }

  /** The number of digits for `n` bytes: `ceil(8n / 5)`. */
  function DigitCount(n: nat): nat {
    (8 * n + 4) / 5
  }

  /** The bits of the bytes, padded on the right with zero bits to a multiple of five. */
  function PaddedBits(bytes: Bytes): nat {
    FromBigEndian(bytes) * Pow(2, 5 * DigitCount(|bytes|) - 8 * |bytes|)
  }

  function EncodeDigits(bytes: Bytes): (d: seq<nat>)
    ensures |d| == DigitCount(|bytes|) && forall i :: 0 <= i < |d| ==> d[i] < 32
  {
    Digits(PaddedBits(bytes), DigitCount(|bytes|))
  }

  // ---------- The bit buffer ----------

  /** Splitting the low bits of a buffer into five and the rest. */
  lemma TakeFive(value: nat, rest: nat)
    requires rest > 0
    ensures value % (32 * rest) == value / rest % 32 * rest + value % rest
  {
    var q, r := value / rest, value % rest;
    assert value == rest * q + r && q == 32 * (q / 32) + q % 32;
    Distribute(rest, 32 * (q / 32), q % 32);
    assert rest * (32 * (q / 32)) == (32 * rest) * (q / 32);
    MulAtLeast(rest, 32 - q % 32);
    Distribute(rest, 32, q % 32);
    DivModUnique(32 * rest, value, q / 32, rest * (q % 32) + r);
  }

  /** `(value << 8) | byte` in 32 bits. */
  function Shifted(value: nat, b: byte): (v: nat)
    ensures v < 0x1_0000_0000
  {
    (value * 256 + b) % 0x1_0000_0000
  }

  /** Bits above the 32nd are lost, but no window of at most 12 low bits notices. */
  lemma ShiftIn(value: nat, b: byte, m: nat, q: nat)
    requires m > 0 && q > 0 && q * (m * 256) == 0x1_0000_0000
    ensures Shifted(value, b) % (m * 256) == value % m * 256 + b
  {
    var big := value * 256 + b;
    DropMultiple(big, m * 256, q);
    assert value == m * (value / m) + value % m;
    assert (m * 256) * (value / m) == (m * (value / m)) * 256;
    DivModUnique(m * 256, big, value / m, value % m * 256 + b);
  }

  lemma DropMultiple(n: nat, m: nat, q: nat)
    requires m > 0 && q > 0 && q * m > 0
    ensures n % (q * m) % m == n % m
  {
    var k := n / (q * m);
    assert n == (q * m) * k + n % (q * m);
    assert (q * m) * k == m * (q * k);
    SameResidue(m, n, n % (q * m), q * k);
  }

  lemma PowStep(e: nat)
    requires e >= 5
    ensures Pow(2, e) == 32 * Pow(2, e - 5)
  {
    PowAdd(2, 5, e - 5);
    assert Pow(2, 5) == 32;
  }

  /** The digits written, continued by the pending low bits of the buffer, as one number. */
  function Joined(out: seq<nat>, value: nat, bits: nat): nat {
    FromDigits(out) * Pow(2, bits) + value % Pow(2, bits)
  }

  /** The value written so far, continued by the pending bits, is the value read so far. */
  ghost predicate BufferInvariant(out: seq<nat>, value: nat, bits: nat, read: Bytes) {
    && 5 * |out| + bits == 8 * |read|
    && (forall i :: 0 <= i < |out| ==> out[i] < 32)
    && Joined(out, value, bits) == FromBigEndian(read)
  }

  lemma SmallPowers(bits: nat) returns (q: nat)
    requires bits < 5
    ensures q > 0 && q * (Pow(2, bits) * 256) == 0x1_0000_0000
    ensures Pow(2, bits + 8) == Pow(2, bits) * 256
  {
    PowAdd(2, bits, 24 - bits);
    PowAdd(2, bits, 8);
    PowAdd(2, 8, 16);
    PowAdd(2, 8, 8);
    assert Pow(2, 8) == 256;
    q := Pow(2, 24 - bits);
    assert q * (Pow(2, bits) * 256) == (q * Pow(2, bits)) * 256;
  }

  lemma ReadByte(out: seq<nat>, value: nat, bits: nat, read: Bytes, b: byte)
    requires BufferInvariant(out, value, bits, read) && bits < 5
    ensures BufferInvariant(out, Shifted(value, b), bits + 8, read + [b])
  {
    var q := SmallPowers(bits);
    ShiftIn(value, b, Pow(2, bits), q);
    assert (read + [b])[..|read|] == read;
    ReadAlgebra(FromDigits(out), Pow(2, bits), value % Pow(2, bits), b);
  }

  lemma ReadAlgebra(d: nat, m: nat, low: nat, b: nat)
    ensures d * (m * 256) + (low * 256 + b) == (d * m + low) * 256 + b
  {
    assert d * (m * 256) == (d * m) * 256;
  }

  /** `(value >>> (bits - 5)) & 31`. */
  function TopFive(value: nat, bits: nat): (digit: nat)
    requires bits >= 5
    ensures digit < 32
  {
    value / Pow(2, bits - 5) % 32
  }

  lemma WriteDigit(out: seq<nat>, value: nat, bits: nat, read: Bytes)
    requires BufferInvariant(out, value, bits, read) && bits >= 5
    ensures BufferInvariant(out + [TopFive(value, bits)], value, bits - 5, read)
  {
    var rest := Pow(2, bits - 5);
    PowStep(bits);
    TakeFive(value, rest);
    assert (out + [TopFive(value, bits)])[..|out|] == out;
    WriteAlgebra(FromDigits(out), rest, TopFive(value, bits), value % rest);
  }

  lemma WriteAlgebra(d: nat, rest: nat, digit: nat, low: nat)
    ensures (d * 32 + digit) * rest + low == d * (32 * rest) + (digit * rest + low)
  {
    Distribute(rest, d * 32, digit);
    assert rest * (d * 32) == d * (32 * rest);
  }

  /** `(value << (5 - bits)) & 31`. */
  function LastFive(value: nat, bits: nat): (digit: nat)
    requires bits < 5
    ensures digit < 32
  {
    value * Pow(2, 5 - bits) % 32
  }

  lemma WriteLast(out: seq<nat>, value: nat, bits: nat, read: Bytes)
    requires BufferInvariant(out, value, bits, read) && 0 < bits < 5
    ensures FromDigits(out + [LastFive(value, bits)]) == PaddedBits(read)
    ensures |out| + 1 == DigitCount(|read|)
  {
    assert 5 * DigitCount(|read|) - 8 * |read| == 5 - bits;
    assert (out + [LastFive(value, bits)])[..|out|] == out;
    FivePowers(bits);
    LastAlgebra(value, Pow(2, bits), Pow(2, 5 - bits));
    PadAlgebra(FromDigits(out), value % Pow(2, bits), Pow(2, bits), Pow(2, 5 - bits));
  }

  lemma FivePowers(bits: nat)
    requires bits < 5
    ensures Pow(2, bits) * Pow(2, 5 - bits) == 32
  {
    PowAdd(2, bits, 5 - bits);
    assert Pow(2, 5) == 32;
  }

  lemma PadAlgebra(d: nat, low: nat, m: nat, c: nat)
    requires m * c == 32
    ensures d * 32 + low * c == (d * m + low) * c
  {
    Distribute(c, d * m, low);
    assert c * (d * m) == d * (m * c);
  }

  lemma LastAlgebra(value: nat, m: nat, c: nat)
    requires m > 0 && c > 0 && m * c == 32
    ensures value * c % 32 == value % m * c
  {
    LastSplit(value / m, value % m, m, c);
    MulLess(value % m, m, c);
    DivModUnique(32, value * c, value / m, value % m * c);
  }

  lemma LastSplit(q: nat, low: nat, m: nat, c: nat)
    requires m * c == 32
    ensures (m * q + low) * c == 32 * q + low * c
  {
    Distribute(c, m * q, low);
    assert c * (m * q) == (m * c) * q;
  }

  /** The state of the outer loop before byte `i`. */
  ghost predicate AtByte(out: seq<nat>, value: nat, bits: nat, bytes: Bytes, i: nat) {
    i <= |bytes| && bits < 5 && BufferInvariant(out, value, bits, bytes[..i])
  }

  /** One round of the outer loop: a byte enters the buffer and whole digits leave it. */
  method ReadAndWrite(out: seq<nat>, value: nat, bits: nat, bytes: Bytes, i: nat)
    returns (out': seq<nat>, value': nat, bits': nat)
    requires i < |bytes| && AtByte(out, value, bits, bytes, i)
    ensures AtByte(out', value', bits', bytes, i + 1)
  {
    ghost var read := bytes[..i + 1];
    assert read == bytes[..i] + [bytes[i]];
    ReadByte(out, value, bits, bytes[..i], bytes[i]);
    out', value', bits' := out, Shifted(value, bytes[i]), bits + 8;
    while bits' >= 5
      invariant BufferInvariant(out', value', bits', read)
    {
      WriteDigit(out', value', bits', read);
      out' := out' + [TopFive(value', bits')];
      bits' := bits' - 5;
    }
  }

  /** The bits left over after the loop, padded with zeros to one digit. */
  method WriteRest(out: seq<nat>, value: nat, bits: nat, ghost read: Bytes) returns (all: seq<nat>)
    requires AtByte(out, value, bits, read, |read|)
    ensures all == EncodeDigits(read)
  {
    assert read[..|read|] == read;
    all := out;
    if bits > 0 {
      WriteLast(out, value, bits, read);
      all := out + [LastFive(value, bits)];
    } else {
      NothingLeft(out, value, read);
    }
    DigitsFrom(all);
  }

  /** The digits `generateCode` writes: exactly the base-32 digits of the bit stream, although the
      buffer drops its high bits from the fifth byte on. */
  method EncodeBytes(bytes: Bytes) returns (out: seq<nat>)
    ensures out == EncodeDigits(bytes)
  {
    var bits: nat, value: nat := 0, 0;
    out := [];
    EmptyBuffer(bytes);
    for i := 0 to |bytes|
      invariant AtByte(out, value, bits, bytes, i)
    {
      out, value, bits := ReadAndWrite(out, value, bits, bytes, i);
    }
    out := WriteRest(out, value, bits, bytes);
  }

  lemma EmptyBuffer(bytes: Bytes)
    ensures AtByte([], 0, 0, bytes, 0)
  {
    assert Pow(2, 0) == 1;
  }

  lemma NothingLeft(out: seq<nat>, value: nat, read: Bytes)
    requires BufferInvariant(out, value, 0, read)
    ensures FromDigits(out) == PaddedBits(read) && |out| == DigitCount(|read|)
  {
    assert Pow(2, 0) == 1;
    assert 5 * DigitCount(|read|) - 8 * |read| == 0;
  }

  /** At a fixed length no two byte strings share their digits. */
  lemma EncodeInjective(a: Bytes, b: Bytes)
    requires |a| == |b| && Symbols(EncodeDigits(a)) == Symbols(EncodeDigits(b))
    ensures a == b
  {
    SameSymbols(EncodeDigits(a), EncodeDigits(b));
    EncodedValue(a);
    EncodedValue(b);
    SamePaddedBits(a, b);
  }

  lemma SamePaddedBits(a: Bytes, b: Bytes)
    requires |a| == |b| && PaddedBits(a) == PaddedBits(b)
    ensures a == b
  {
    MulCancel(FromBigEndian(a), FromBigEndian(b), Pow(2, 5 * DigitCount(|a|) - 8 * |a|));
    ToFromBigEndian(a);
    ToFromBigEndian(b);
  }

  lemma SameSymbols(d: seq<nat>, e: seq<nat>)
    requires forall i :: 0 <= i < |d| ==> d[i] < 32
    requires forall i :: 0 <= i < |e| ==> e[i] < 32
    requires Symbols(d) == Symbols(e)
    ensures d == e
  {
    assert |d| == |Symbols(d)| == |e|;
    forall i | 0 <= i < |d| ensures d[i] == e[i] {
      assert Symbols(d)[i] == Symbols(e)[i];
      SymbolInjective(d[i], e[i]);
    }
  }

  lemma EncodedValue(a: Bytes)
    ensures FromDigits(EncodeDigits(a)) == PaddedBits(a)
  {
    PaddedBitsFit(a);
    DigitsValue(PaddedBits(a), DigitCount(|a|));
  }

  lemma MulCancel(x: nat, y: nat, c: nat)
    requires c > 0 && x * c == y * c
    ensures x == y
  {
    if x < y {
      Distribute(c, y, x);
      MulAtLeast(c, y - x);
    } else if y < x {
      Distribute(c, x, y);
      MulAtLeast(c, x - y);
    }
  }

  lemma {:induction false} DigitsValue(n: nat, len: nat)
    requires n < Pow(32, len)
    ensures FromDigits(Digits(n, len)) == n
  {
    if len > 0 {
      DigitsValue(n / 32, len - 1);
    }
  }

  lemma {:induction false} Pow32(n: nat)
    ensures Pow(32, n) == Pow(2, 5 * n)
  {
    if n > 0 {
      Pow32(n - 1);
      PowStep(5 * n);
    }
  }

  lemma {:induction false} Pow256(n: nat)
    ensures Pow(256, n) == Pow(2, 8 * n)
  {
    if n > 0 {
      Pow256(n - 1);
      PowAdd(2, 8, 8 * (n - 1));
      assert Pow(2, 8) == 256;
    }
  }

  lemma PaddedBitsFit(b: Bytes)
    ensures PaddedBits(b) < Pow(32, DigitCount(|b|))
  {
    var pad := 5 * DigitCount(|b|) - 8 * |b|;
    BigEndianBound(b);
    Pow256(|b|);
    Pow32(DigitCount(|b|));
    PowAdd(2, 8 * |b|, pad);
    assert 8 * |b| + pad == 5 * DigitCount(|b|);
    MulLess(FromBigEndian(b), Pow(2, 8 * |b|), Pow(2, pad));
  }

  lemma MulLess(x: nat, y: nat, c: nat)
    requires x < y && c > 0
    ensures x * c < y * c
  {
    MulAtLeast(c, y - x);
    Distribute(c, y, x);
  }

  /** One byte is two digits: its first five bits, and the last three followed by two zeros. */
  lemma OneByte(b: byte)
    ensures EncodeDigits([b]) == [b / 8, b % 8 * 4]
  {
    assert FromBigEndian([b]) == b by {
      assert [b][..0] == [];
    }
    assert DigitCount(1) == 2 && Pow(2, 2) == 4;
    assert Digits(b * 4, 2) == Digits(b * 4 / 32, 1) + [b * 4 % 32];
    assert Digits(b * 4 / 32, 1) == Digits(b * 4 / 32 / 32, 0) + [b * 4 / 32 % 32];
  }

  // ---------- Grouping ----------

  function Min(a: nat, b: nat): nat { if a < b then a else b }

  /** Groups of three, each behind a dash. */
  function DashedThrees(s: string): string {
    if |s| == 0 then "" else "-" + s[..Min(3, |s|)] + DashedThrees(s[Min(3, |s|)..])
  }

  function Grouped(s: string): string {
    s[..Min(1, |s|)] + DashedThrees(s[Min(1, |s|)..])
  }

  lemma DashedHead(s: string)
    requires |s| > 0
    ensures |DashedThrees(s)| > Min(3, |s|) && DashedThrees(s)[0] == '-'
    ensures forall i :: 0 <= i < Min(3, |s|) ==> DashedThrees(s)[i + 1] == s[i]
    ensures |s| > 3 ==> DashedThrees(s) == DashedThrees(s)[..4] + DashedThrees(s[3..])
  {
    var head := "-" + s[..Min(3, |s|)];
    assert DashedThrees(s) == head + DashedThrees(s[Min(3, |s|)..]);
  }

  lemma Behind(a: string, b: string, k: nat, c: char)
    requires |a| == 4 && k < |b| && b[k] == c
    ensures |a + b| > k + 4 && (a + b)[k + 4] == c
  {
  }

  lemma {:induction false} DashedAt(s: string, q: nat, r: nat)
    requires r < 3 && 3 * q + r < |s|
    ensures |DashedThrees(s)| > 4 * q + 1 + r
    ensures DashedThrees(s)[4 * q] == '-' && DashedThrees(s)[4 * q + 1 + r] == s[3 * q + r]
  {
    DashedHead(s);
    if q > 0 {
      var rest := DashedThrees(s[3..]);
      DashedAt(s[3..], q - 1, r);
      Behind(DashedThrees(s)[..4], rest, 4 * (q - 1) + 1 + r, s[3 * q + r]);
      Behind(DashedThrees(s)[..4], rest, 4 * (q - 1), '-');
    }
  }

  /** Where the characters of a printed code stand: the first alone, the others by threes, a dash before
      each three. */
  lemma GroupedAt(s: string, q: nat, r: nat)
    requires r < 3 && 1 + 3 * q + r < |s|
    ensures |Grouped(s)| > 4 * q + 2 + r && Grouped(s)[0] == s[0]
    ensures Grouped(s)[4 * q + 1] == '-' && Grouped(s)[4 * q + 2 + r] == s[1 + 3 * q + r]
  {
    DashedAt(s[1..], q, r);
    assert Grouped(s) == [s[0]] + DashedThrees(s[1..]);
  }

  /** `groups.join("-")`. */
  function Join(groups: seq<string>): string {
    if |groups| == 0 then ""
    else if |groups| == 1 then groups[0]
    else Join(groups[..|groups| - 1]) + "-" + groups[|groups| - 1]
  }

  /** `generateCode` for the bytes drawn: digits, symbols, and a short first group. */
  method GenerateCode(bytes: Bytes) returns (code: string)
    ensures code == Grouped(Symbols(EncodeDigits(bytes)))
  {
    var digits := EncodeBytes(bytes);
    var out := Symbols(digits);
    var groups := [out[..Min(1, |out|)]];
    var i := 1;
    while i < |out|
      invariant |groups| > 0 && 1 <= i
      invariant Join(groups) + DashedThrees(out[Min(i, |out|)..]) == Grouped(out)
      decreases |out| - i
    {
      var group := out[i..Min(i + 3, |out|)];
      AddGroup(groups, group, out, i);
      groups := groups + [group];
      i := i + 3;
    }
    code := Join(groups);
  }

  lemma JoinLast(groups: seq<string>, group: string)
    requires |groups| > 0
    ensures Join(groups + [group]) == Join(groups) + "-" + group
  {
    assert (groups + [group])[..|groups|] == groups;
  }

  lemma SliceParts(out: string, i: nat)
    requires i < |out|
    ensures var rest := out[i..];
      rest[..Min(3, |rest|)] == out[i..Min(i + 3, |out|)] && rest[Min(3, |rest|)..] == out[Min(i + 3, |out|)..]
  {
  }

  lemma AddGroup(groups: seq<string>, group: string, out: string, i: nat)
    requires |groups| > 0 && i < |out| && group == out[i..Min(i + 3, |out|)]
    ensures Join(groups + [group]) + DashedThrees(out[Min(i + 3, |out|)..]) == Join(groups) + DashedThrees(out[i..])
  {
    JoinLast(groups, group);
    SliceParts(out, i);
    Regroup(Join(groups), "-", group, DashedThrees(out[Min(i + 3, |out|)..]));
  }

  lemma Regroup(a: string, b: string, c: string, d: string)
    ensures a + b + c + d == a + (b + c + d)
  {
  }

  // ---------- Reading back ----------

  /** The white space of JavaScript's `\s`. */
  predicate IsSpace(c: char) {
    '\t' <= c <= '\r' || c == ' ' || c == '\U{A0}' || c == '\U{1680}' || '\U{2000}' <= c <= '\U{200A}'
    || c == '\U{2028}' || c == '\U{2029}' || c == '\U{202F}' || c == '\U{205F}' || c == '\U{3000}' || c == '\U{FEFF}'
  }

  function ToUpper(c: char): char {
    if 'a' <= c <= 'z' then (c as int - 32) as char else c
  }

  function LookAlike(c: char): char {
    if c == 'O' then '0' else if c == 'I' || c == 'L' then '1' else if c == 'U' then 'V' else c
  }

  function NormalizeChar(c: char): string {
    var u := ToUpper(c);
    if IsSpace(u) || u == '-' then "" else [LookAlike(u)]
  }

  /** `normalize`: capitals, no separators, look-alike letters replaced. */
  function Normalize(code: string): string {
    if |code| == 0 then "" else NormalizeChar(code[0]) + Normalize(code[1..])
  }

  lemma {:induction false} NormalizeConcat(a: string, b: string)
    ensures Normalize(a + b) == Normalize(a) + Normalize(b)
  {
    if |a| == 0 {
      assert a + b == b;
    } else {
      assert (a + b)[1..] == a[1..] + b;
      NormalizeConcat(a[1..], b);
    }
  }

  /** Characters that normalisation keeps. */
  ghost predicate Canonical(s: string) {
    forall i :: 0 <= i < |s| ==> NormalizeChar(s[i]) == [s[i]]
  }

  lemma {:induction false} NormalizeCanonical(s: string)
    requires Canonical(s)
    ensures Normalize(s) == s
  {
    if |s| > 0 {
      NormalizeCanonical(s[1..]);
      assert s == [s[0]] + s[1..];
    }
  }

  lemma NormalizedCharIsCanonical(c: char)
    ensures Canonical(NormalizeChar(c))
  {
  }

  lemma {:induction false} NormalizedIsCanonical(s: string)
    ensures Canonical(Normalize(s))
  {
    if |s| > 0 {
      NormalizedIsCanonical(s[1..]);
      NormalizedCharIsCanonical(s[0]);
    }
  }

  lemma NormalizeIdempotent(s: string)
    ensures Normalize(Normalize(s)) == Normalize(s)
  {
    NormalizedIsCanonical(s);
    NormalizeCanonical(Normalize(s));
  }

  lemma SymbolsCanonical(digits: seq<nat>)
    requires forall i :: 0 <= i < |digits| ==> digits[i] < 32
    ensures Canonical(Symbols(digits))
  {
  }

  lemma NormalizeDash(group: string, rest: string)
    requires Canonical(group)
    ensures Normalize("-" + group + rest) == group + Normalize(rest)
  {
    var s := "-" + group + rest;
    assert s[1..] == group + rest;
    assert Normalize(s) == NormalizeChar('-') + Normalize(group + rest);
    NormalizeConcat(group, rest);
    NormalizeCanonical(group);
  }

  lemma {:induction false} NormalizeDashed(s: string)
    requires Canonical(s)
    ensures Normalize(DashedThrees(s)) == s
  {
    if |s| > 0 {
      var k := Min(3, |s|);
      NormalizeDashed(s[k..]);
      NormalizeDash(s[..k], DashedThrees(s[k..]));
      assert s == s[..k] + s[k..];
    }
  }

  /** Reading a printed code back gives its digits: grouping loses nothing. */
  lemma NormalizeGrouped(digits: seq<nat>)
    requires forall i :: 0 <= i < |digits| ==> digits[i] < 32
    ensures Normalize(Grouped(Symbols(digits))) == Symbols(digits)
  {
    var s := Symbols(digits);
    var k := Min(1, |s|);
    SymbolsCanonical(digits);
    NormalizeCanonical(s[..k]);
    NormalizeDashed(s[k..]);
    NormalizeConcat(s[..k], DashedThrees(s[k..]));
    assert s == s[..k] + s[k..];
  }

  /** Two printed codes of one length normalise alike only if their bytes were the same. */
  lemma CodesDiffer(a: Bytes, b: Bytes)
    requires |a| == |b|
    requires Normalize(Grouped(Symbols(EncodeDigits(a)))) == Normalize(Grouped(Symbols(EncodeDigits(b))))
    ensures a == b
  {
    NormalizeGrouped(EncodeDigits(a));
    NormalizeGrouped(EncodeDigits(b));
    EncodeInjective(a, b);
  }

  // ---------- What may be typed for a code ----------

  const SMALL: string := "abcdefghijklmnopqrstuvwxyz"
  const CAPITAL: string := "ABCDEFGHIJKLMNOPQRSTUVWXYZ"

  /** One typed character stands for the printed one: itself, its small letter, or a look-alike. */
  predicate StandsFor(c: char, printed: char) {
    || c == printed
    || (exists i :: 0 <= i < 26 && i < |SMALL| && i < |CAPITAL| && c == SMALL[i] && printed == CAPITAL[i])
    || (printed == '0' && (c == 'O' || c == 'o'))
    || (printed == '1' && (c == 'I' || c == 'i' || c == 'L' || c == 'l'))
    || (printed == 'V' && (c == 'U' || c == 'u'))
  }

  predicate IsSeparator(c: char) { c == '-' || IsSpace(c) }

  /** The typed text is the symbols, each in one of its spellings, with separators anywhere. */
  predicate Spells(typed: string, symbols: string) {
    if |typed| == 0 then |symbols| == 0
    else if IsSeparator(typed[0]) then Spells(typed[1..], symbols)
    else |symbols| > 0 && StandsFor(typed[0], symbols[0]) && Spells(typed[1..], symbols[1..])
  }

  lemma SmallLetter(c: char, d: char)
    ensures (exists i :: 0 <= i < 26 && i < |SMALL| && i < |CAPITAL| && c == SMALL[i] && d == CAPITAL[i])
       <==> 'a' <= c <= 'z' && d as int == c as int - 32
  {
    LettersInOrder();
    if 'a' <= c <= 'z' && d as int == c as int - 32 {
      var i := c as int - 'a' as int;
      assert c == SMALL[i] && d == CAPITAL[i];
    }
  }

  lemma LettersInOrder()
    ensures |SMALL| == |CAPITAL| == 26
    ensures forall i :: 0 <= i < 26 ==> SMALL[i] as int == 'a' as int + i && CAPITAL[i] as int == 'A' as int + i
  {
  }

  /** The characters that codes are printed in. */
  predicate IsPrinted(c: char) {
    '0' <= c <= '9' || ('A' <= c <= 'Z' && c != 'I' && c != 'L' && c != 'O' && c != 'U')
  }

  /** One character: dropped as a separator, or read as the one printed character it stands for. */
  lemma CharacterRead(c: char, printed: char)
    requires IsPrinted(printed)
    ensures if IsSeparator(c) then NormalizeChar(c) == "" else NormalizeChar(c) == [printed] <==> StandsFor(c, printed)
  {
    if !IsSeparator(c) {
      OneCharacter(c, printed);
      StandsForIs(c, printed);
    }
  }

  lemma OneCharacter(c: char, printed: char)
    requires !IsSeparator(c)
    ensures NormalizeChar(c) == [printed] <==> LookAlike(ToUpper(c)) == printed
  {
  }

  lemma StandsForIs(c: char, printed: char)
    requires IsPrinted(printed)
    ensures LookAlike(ToUpper(c)) == printed <==> StandsFor(c, printed)
  {
    SmallLetter(c, printed);
  }

  lemma PrependEq(c: char, s: string, d: char, t: string)
    ensures [c] + s == [d] + t <==> c == d && s == t
  {
    assert ([c] + s)[0] == c && ([d] + t)[0] == d && ([c] + s)[1..] == s && ([d] + t)[1..] == t;
  }

  /** What is typed is read as these symbols exactly if it spells them. */
  lemma {:induction false} NormalizeIffSpells(typed: string, symbols: string)
    requires forall i :: 0 <= i < |symbols| ==> IsPrinted(symbols[i])
    ensures Normalize(typed) == symbols <==> Spells(typed, symbols)
  {
    if |typed| > 0 {
      var c, rest := typed[0], typed[1..];
      if IsSeparator(c) {
        NormalizeIffSpells(rest, symbols);
        assert NormalizeChar(c) == "" by {
          CharacterRead(c, '0');
        }
      } else {
        var u := NormalizeChar(c)[0];
        assert Normalize(typed) == [u] + Normalize(rest);
        if |symbols| > 0 {
          CharacterRead(c, symbols[0]);
          NormalizeIffSpells(rest, symbols[1..]);
          assert symbols == [symbols[0]] + symbols[1..];
          PrependEq(u, Normalize(rest), symbols[0], symbols[1..]);
        }
      }
    }
  }
}
