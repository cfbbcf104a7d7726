/** Bytes, big-endian integers, hexadecimal digests and decimal numbers: the
    `int.to_bytes`, `int.from_bytes`, `int(s, 16)`, `format(n, "040x")` and `str(n)`
    conversions the codecs are built from. */
module Bytes {
  import opened Wrappers

  type byte = b: int | 0 <= b < 0x100
  type Bytes = seq<byte>

  /** Python `str` values are modelled by their UTF-8 encoding. */
  type Text = seq<byte>

  function Pow(b: nat, e: nat): (r: nat)
    ensures b > 0 ==> r > 0
  {
    if e == 0 then 1 else b * Pow(b, e - 1)
  }

  lemma {:induction false} PowAdd(b: nat, e1: nat, e2: nat)
    ensures Pow(b, e1 + e2) == Pow(b, e1) * Pow(b, e2)
    decreases e1
  {
    if e1 > 0 {
      PowAdd(b, e1 - 1, e2);
      assert Pow(b, e1 + e2) == b * Pow(b, e1 - 1 + e2);
    }
  }

  lemma {:induction false} Pow256IsPow16(w: nat)
    ensures Pow(256, w) == Pow(16, 2 * w)
    decreases w
  {
    if w > 0 {
      Pow256IsPow16(w - 1);
      PowAdd(16, 2, 2 * (w - 1));
    }
  }

  lemma {:induction false} PowSmall()
    ensures Pow(256, 2) == 0x1_0000
    ensures Pow(256, 4) == 0x1_0000_0000
  {
    assert Pow(256, 1) == 256;
    assert Pow(256, 3) == 256 * Pow(256, 2);
  }

  // ---------------------------------------------------------------------------
  // Big-endian integers

  /** `int.from_bytes(s, "big")`. */
  function FromBigEndian(s: Bytes): (r: nat)
    ensures r < Pow(256, |s|)
  {
    if s == [] then 0
    else
      var hi := FromBigEndian(s[..|s| - 1]);
      assert hi <= Pow(256, |s| - 1) - 1;
      assert hi * 256 <= Pow(256, |s| - 1) * 256 - 256;
      hi * 256 + s[|s| - 1]
  }

  /** `n.to_bytes(width, "big")` for a value that fits. */
  function BigEndian(n: nat, width: nat): (r: Bytes)
    requires n < Pow(256, width)
    ensures |r| == width
    ensures FromBigEndian(r) == n
    decreases width
  {
    if width == 0 then []
    else
      var r := BigEndian(n / 256, width - 1) + [n % 256];
      assert r[..|r| - 1] == BigEndian(n / 256, width - 1);
      r
  }

  lemma {:induction false} BigEndianOfFromBigEndian(s: Bytes)
    ensures BigEndian(FromBigEndian(s), |s|) == s
    decreases |s|
  {
    if s != [] {
      var init := s[..|s| - 1];
      BigEndianOfFromBigEndian(init);
      var n := FromBigEndian(s);
      assert n / 256 == FromBigEndian(init);
      assert n % 256 == s[|s| - 1];
      assert s == init + [s[|s| - 1]];
    }
  }

  /** `n.to_bytes(width, "big")`, which raises OverflowError when `n` does not fit. */
  function ToBytes(n: nat, width: nat): (r: Result<Bytes>)
    ensures r.Ok? <==> n < Pow(256, width)
    ensures r.Ok? ==> |r.value| == width && FromBigEndian(r.value) == n
    ensures r.Err? ==> r.error == Overflow
  {
    if n < Pow(256, width) then Ok(BigEndian(n, width)) else Err(Overflow)
  }

  function Zeros(n: nat): (r: Bytes)
    ensures |r| == n
    ensures forall i :: 0 <= i < n ==> r[i] == 0
  {
    seq(n, _ => 0)
  }

  // ---------------------------------------------------------------------------
  // Hexadecimal

  predicate IsHexDigit(c: byte) {
    0x30 <= c <= 0x39 || 0x41 <= c <= 0x46 || 0x61 <= c <= 0x66
  }

  predicate IsLowerHexDigit(c: byte) {
    0x30 <= c <= 0x39 || 0x61 <= c <= 0x66
  }

  predicate IsHex(s: Text) {
    forall i :: 0 <= i < |s| ==> IsHexDigit(s[i])
  }

  predicate IsLowerHex(s: Text) {
    forall i :: 0 <= i < |s| ==> IsLowerHexDigit(s[i])
  }

  /** A digest as `hexdigest()` prints it: 40 lowercase hexadecimal digits. */
  predicate IsDigest(s: Text) {
    |s| == 40 && IsLowerHex(s)
  }

  function DigitValue(c: byte): (r: nat)
    requires IsHexDigit(c)
    ensures r < 16
  {
    if c <= 0x39 then c - 0x30 else if c <= 0x46 then c - 0x41 + 10 else c - 0x61 + 10
  }

  function LowerDigit(d: nat): (c: byte)
    requires d < 16
    ensures IsLowerHexDigit(c) && DigitValue(c) == d
  {
    if d < 10 then 0x30 + d else 0x61 + d - 10
  }

  lemma {:induction false} LowerDigitOfDigitValue(c: byte)
    requires IsLowerHexDigit(c)
    ensures LowerDigit(DigitValue(c)) == c
  {
  }

  /** The value of a string of hexadecimal digits, most significant first. */
  function HexValue(s: Text): (r: nat)
    requires IsHex(s)
    ensures r < Pow(16, |s|)
  {
    if s == [] then 0
    else
      var hi := HexValue(s[..|s| - 1]);
      assert hi <= Pow(16, |s| - 1) - 1;
      assert hi * 16 <= Pow(16, |s| - 1) * 16 - 16;
      hi * 16 + DigitValue(s[|s| - 1])
  }

  /** `int(s, 16)`: None where Python raises ValueError. Python's extra leniency
      (surrounding whitespace, underscores, a `0x` prefix, a sign) is not modelled. */
  function ParseHex(s: Text): (r: Option<nat>)
    ensures r.Some? <==> |s| > 0 && IsHex(s)
    ensures r.Some? ==> r.value < Pow(16, |s|)
  {
    if |s| > 0 && IsHex(s) then Some(HexValue(s)) else None
  }

  /** Dropping the last hexadecimal digit of a `width`-digit value. */
  lemma {:induction false} DivPow16(n: nat, width: nat)
    requires 0 < width && n < Pow(16, width)
    ensures n / 16 < Pow(16, width - 1)
  {
    var p := Pow(16, width - 1);
    assert Pow(16, width) == 16 * p;
    assert (n / 16) * 16 <= n;
  }

  /** `format(n, "0<width>x")` for a value of at most `width` digits. */
  function FormatHex(n: nat, width: nat): (r: Text)
    requires n < Pow(16, width)
    ensures |r| == width && IsLowerHex(r)
    ensures HexValue(r) == n
    decreases width
  {
    if width == 0 then []
    else
      DivPow16(n, width);
      var init := FormatHex(n / 16, width - 1);
      var r := init + [LowerDigit(n % 16)];
      assert r[..|r| - 1] == init;
      assert HexValue(r) == HexValue(init) * 16 + n % 16;
      r
  }

  lemma {:induction false} FormatHexOfHexValue(s: Text)
    requires IsLowerHex(s)
    ensures FormatHex(HexValue(s), |s|) == s
    decreases |s|
  {
    if s != [] {
      var init := s[..|s| - 1];
      assert IsLowerHex(init);
      FormatHexOfHexValue(init);
      var n := HexValue(s);
      assert n / 16 == HexValue(init);
      assert n % 16 == DigitValue(s[|s| - 1]);
      LowerDigitOfDigitValue(s[|s| - 1]);
      assert s == init + [s[|s| - 1]];
    }
  }

  /** `int(sha, 16).to_bytes(20, "big")`, as both writers encode a digest. */
  function ShaToBytes(sha: Text): (r: Result<Bytes>)
    ensures r.Ok? ==> |r.value| == 20
    ensures r.Err? <==> !(|sha| > 0 && IsHex(sha)) || HexValue(sha) >= Pow(256, 20)
  {
    match ParseHex(sha)
    case None => Err(BadHex)
    case Some(v) => ToBytes(v, 20)
  }

  /** Two lowercase hexadecimal digits per byte, most significant first. */
  function HexOfBytes(b: Bytes): (r: Text)
    ensures |r| == 2 * |b| && IsLowerHex(r)
  {
    if b == [] then []
    else HexOfBytes(b[..|b| - 1]) + [LowerDigit(b[|b| - 1] / 16), LowerDigit(b[|b| - 1] % 16)]
  }

  lemma {:induction false} HexOfBytesValue(b: Bytes)
    ensures HexValue(HexOfBytes(b)) == FromBigEndian(b)
    decreases |b|
  {
    if b != [] {
      var init := b[..|b| - 1];
      var c := b[|b| - 1];
      var h := HexOfBytes(b);
      var hi := HexOfBytes(init) + [LowerDigit(c / 16)];
      HexOfBytesValue(init);
      assert h[..|h| - 1] == hi;
      assert hi[..|hi| - 1] == HexOfBytes(init);
      assert HexValue(hi) == HexValue(HexOfBytes(init)) * 16 + c / 16;
      assert HexValue(h) == HexValue(hi) * 16 + c % 16;
    }
  }

  /** `format(int.from_bytes(b, "big"), "040x")`, as both readers decode a digest:
      every byte as two lowercase digits. */
  function ShaFromBytes(b: Bytes): (r: Text)
    requires |b| == 20
    ensures IsDigest(r)
  {
    HexOfBytes(b)
  }

  /** The byte-wise digits are the zero-padded hexadecimal value of the bytes. */
  lemma {:induction false} ShaFromBytesFormats(b: Bytes)
    requires |b| == 20
    ensures FromBigEndian(b) < Pow(16, 40)
    ensures ShaFromBytes(b) == FormatHex(FromBigEndian(b), 40)
  {
    var h := HexOfBytes(b);
    Pow256IsPow16(20);
    HexOfBytesValue(b);
    assert |h| == 40 && HexValue(h) == FromBigEndian(b);
    FormatHexOfHexValue(h);
  }

  lemma {:induction false} HexValueFits(s: Text, w: nat)
    requires |s| == 2 * w && IsHex(s)
    ensures HexValue(s) < Pow(256, w)
  {
    Pow256IsPow16(w);
  }

  lemma {:induction false} ShaToBytesOfDigest(sha: Text)
    requires IsDigest(sha)
    ensures ShaToBytes(sha).Ok?
    ensures FromBigEndian(ShaToBytes(sha).value) == HexValue(sha)
  {
    HexValueFits(sha, 20);
  }

  /** Encoding a digest to 20 bytes and decoding it gives the digest back. */
  lemma {:induction false} ShaRoundTrip(sha: Text)
    requires IsDigest(sha)
    ensures ShaToBytes(sha).Ok?
    ensures ShaFromBytes(ShaToBytes(sha).value) == sha
  {
    ShaToBytesOfDigest(sha);
    var b := ShaToBytes(sha).value;
    HexOfBytesValue(b);
    FormatHexOfHexValue(sha);
    FormatHexOfHexValue(HexOfBytes(b));
  }

  /** Decoding 20 bytes to a digest and encoding it gives the bytes back. */
  lemma {:induction false} ShaBytesRoundTrip(b: Bytes)
    requires |b| == 20
    ensures ShaToBytes(ShaFromBytes(b)) == Ok(b)
  {
    HexOfBytesValue(b);
    BigEndianOfFromBigEndian(b);
  }

  // ---------------------------------------------------------------------------
  // Decimal

  predicate IsDecimalDigit(c: byte) {
    0x30 <= c <= 0x39
  }

  predicate IsDecimal(s: Text) {
    forall i :: 0 <= i < |s| ==> IsDecimalDigit(s[i])
  }

  /** `str(n)`: decimal digits without leading zeros. */
  function Decimal(n: nat): (r: Text)
    ensures |r| > 0 && IsDecimal(r)
    ensures n > 0 ==> r[0] != 0x30
  {
    if n < 10 then [0x30 + n] else Decimal(n / 10) + [0x30 + n % 10]
  }

  function DecimalValue(s: Text): nat
    requires IsDecimal(s)
  {
    if s == [] then 0 else DecimalValue(s[..|s| - 1]) * 10 + (s[|s| - 1] - 0x30)
  }

  /** `int(s)` on a plain string of digits; None where Python raises ValueError.
      Python's extra leniency (whitespace, sign, underscores) is not modelled. */
  function ParseDecimal(s: Text): (r: Option<nat>)
    ensures r.Some? <==> |s| > 0 && IsDecimal(s)
  {
    if |s| > 0 && IsDecimal(s) then Some(DecimalValue(s)) else None
  }

  lemma {:induction false} ParseDecimalOfDecimal(n: nat)
    ensures ParseDecimal(Decimal(n)) == Some(n)
    decreases n
  {
    if n >= 10 {
      ParseDecimalOfDecimal(n / 10);
      var d := Decimal(n);
      assert d[..|d| - 1] == Decimal(n / 10);
      assert d[|d| - 1] == 0x30 + n % 10;
      assert DecimalValue(d) == DecimalValue(Decimal(n / 10)) * 10 + n % 10;
    } else {
      var d := Decimal(n);
      assert d[..0] == [];
      assert DecimalValue(d) == n;
    }
  }
}
