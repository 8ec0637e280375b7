/** Tar header fields and npm member paths: octal numbers, the checksum, NUL-terminated text and path
    normalisation. Text stands for its bytes, one character a byte. */
module TarHeader {
  import opened Wrappers
  import opened Text
  import opened JsonScan
  import opened Inventory

  type Bytes = seq<byte>

  const BLOCK: nat := 512
  const MAX_TAR_PATH_BYTES: nat := 512
  const ZERO: byte := 0x30
  const SPACE: byte := 0x20

  // ----- Octal numbers

  predicate IsOctalDigit(b: byte) { 0x30 <= b <= 0x37 }

  function Octal(text: Bytes): nat
    requires forall i | 0 <= i < |text| :: IsOctalDigit(text[i])
  {
    if text == [] then 0 else
      assert IsOctalDigit(text[|text| - 1]);
      Octal(text[..|text| - 1]) * 8 + (text[|text| - 1] as nat - 0x30)
  }

  /** The field up to its first NUL or space. */
  function NumberText(field: Bytes): (text: Bytes)
    ensures text <= field
  {
    if field == [] || field[0] == 0 || field[0] == SPACE then [] else [field[0]] + NumberText(field[1..])
  }

  function ParseTarNumber(field: Bytes): Option<nat> {
    if field != [] && field[0] >= 0x80 then None
    else
      var text := NumberText(field);
      if text == [] then Some(0)
      else if forall i | 0 <= i < |text| :: IsOctalDigit(text[i]) then
        var value := Octal(text);
        if value <= U64_MAX then Some(value) else None
      else None
  }

  function Pow8(n: nat): nat { if n == 0 then 1 else 8 * Pow8(n - 1) }

  function OctalDigits(value: nat, width: nat): (text: Bytes)
    ensures |text| == width && forall i | 0 <= i < width :: IsOctalDigit(text[i])
  {
    if width == 0 then [] else OctalDigits(value / 8, width - 1) + [ZERO + (value % 8) as byte]
  }

  lemma {:induction false} OctalOfDigits(value: nat, width: nat)
    requires value < Pow8(width)
    ensures Octal(OctalDigits(value, width)) == value
  {
    if width > 0 {
      OctalOfDigits(value / 8, width - 1);
      var text := OctalDigits(value, width);
      assert text[..width - 1] == OctalDigits(value / 8, width - 1);
    }
  }

  lemma {:induction false} NumberTextOf(text: Bytes, rest: Bytes)
    requires forall i | 0 <= i < |text| :: IsOctalDigit(text[i])
    requires rest != [] && (rest[0] == 0 || rest[0] == SPACE)
    ensures NumberText(text + rest) == text
  {
    if text == [] {
      assert text + rest == rest;
    } else {
      assert (text + rest)[1..] == text[1..] + rest;
      NumberTextOf(text[1..], rest);
    }
  }

  /** A number written in octal digits before a NUL or a space is read back. */
  lemma NumberOfDigits(value: nat, width: nat, rest: Bytes)
    requires 0 < width && value < Pow8(width) && value <= U64_MAX
    requires rest != [] && (rest[0] == 0 || rest[0] == SPACE)
    ensures ParseTarNumber(OctalDigits(value, width) + rest) == Some(value)
  {
    var text := OctalDigits(value, width);
    NumberTextOf(text, rest);
    OctalOfDigits(value, width);
    assert IsOctalDigit(text[0]);
  }

  lemma {:induction false} OctalBound(text: Bytes)
    requires forall i | 0 <= i < |text| :: IsOctalDigit(text[i])
    ensures Octal(text) < Pow8(|text|) && OctalDigits(Octal(text), |text|) == text
  {
    if text != [] {
      var (init, last) := (text[..|text| - 1], text[|text| - 1]);
      assert IsOctalDigit(last);
      OctalBound(init);
      assert text == init + [last] && Octal(text) == Octal(init) * 8 + (last as nat - 0x30);
      assert Octal(text) / 8 == Octal(init) && Octal(text) % 8 == last as nat - 0x30;
    }
  }

  /** The field starts with the digits of this number and ends there, at a NUL or at a space. */
  ghost predicate HoldsNumber(field: Bytes, value: nat, width: nat) {
    && width <= |field| && (width < |field| ==> field[width] == 0 || field[width] == SPACE)
    && value < Pow8(width) && field[..width] == OctalDigits(value, width)
  }

  lemma {:induction false} NumberTextEnds(field: Bytes)
    ensures var n := |NumberText(field)|;
      && n <= |field| && NumberText(field) == field[..n] && (n < |field| ==> field[n] == 0 || field[n] == SPACE)
      && forall i | 0 <= i < n :: field[i] != 0 && field[i] != SPACE
  {
    if field != [] && field[0] != 0 && field[0] != SPACE {
      NumberTextEnds(field[1..]);
      var n := |NumberText(field[1..])|;
      assert field[..n + 1] == [field[0]] + field[1..][..n];
      forall i | 0 <= i < n + 1 ensures field[i] != 0 && field[i] != SPACE {
        if i > 0 { assert field[i] == field[1..][i - 1]; }
      }
    }
  }

  /** A field is read as a number exactly when it holds that number's octal digits, leading zeros and all, before a NUL, a
      space or its end, and the number has 64 bits. */
  lemma NumberMeans(field: Bytes, value: nat)
    ensures ParseTarNumber(field) == Some(value) <==>
      value <= 0xffff_ffff_ffff_ffff && exists width :: HoldsNumber(field, value, width)
  {
    NumberTextEnds(field);
    var text := NumberText(field);
    if ParseTarNumber(field) == Some(value) {
      if text == [] {
        assert HoldsNumber(field, 0, 0);
      } else {
        OctalBound(text);
        assert HoldsNumber(field, value, |text|);
      }
    }
    if width :| HoldsNumber(field, value, width) && value <= U64_MAX {
      HeldIsRead(field, value, width);
    }
  }

  lemma HeldIsRead(field: Bytes, value: nat, width: nat)
    requires HoldsNumber(field, value, width) && value <= U64_MAX
    ensures ParseTarNumber(field) == Some(value)
  {
    NumberTextEnds(field);
    var (text, digits) := (NumberText(field), OctalDigits(value, width));
    forall i | 0 <= i < width ensures field[i] == digits[i] && IsOctalDigit(field[i]) {
      assert field[..width][i] == field[i];
    }
    assert |text| == width && text == digits;
    OctalOfDigits(value, width);
  }

  // ----- Checksum

  function SumBytes(bytes: Bytes): nat {
    if bytes == [] then 0 else bytes[0] as nat + SumBytes(bytes[1..])
  }

  lemma {:induction false} SumBytesBound(bytes: Bytes)
    ensures SumBytes(bytes) <= 255 * |bytes|
  {
    if bytes != [] { SumBytesBound(bytes[1..]); }
  }

  /** The sum of all header bytes with the checksum field read as eight spaces. */
  function HeaderSum(h: Bytes): nat
    requires |h| == BLOCK
  {
    SumBytes(h[..148]) + 8 * SPACE as nat + SumBytes(h[156..])
  }

  predicate ValidTarChecksum(h: Bytes)
    requires |h| == BLOCK
  {
    ParseTarNumber(h[148..156]) == Some(HeaderSum(h))
  }

  lemma {:induction false} SumOfUpdate(bytes: Bytes, i: nat, b: byte)
    requires i < |bytes|
    ensures SumBytes(bytes[i := b]) == SumBytes(bytes) - bytes[i] as nat + b as nat
  {
    if i > 0 {
      SumOfUpdate(bytes[1..], i - 1, b);
      assert bytes[i := b][1..] == bytes[1..][i - 1 := b];
    } else {
      assert bytes[0 := b][1..] == bytes[1..];
    }
  }

  /** A header byte that the checksum covers: any but those of the checksum field. */
  predicate Covered(i: nat) { i < 148 || 156 <= i < BLOCK }

  lemma HeaderSumOfUpdate(h: Bytes, i: nat, b: byte)
    requires |h| == BLOCK && Covered(i)
    ensures HeaderSum(h[i := b]) == HeaderSum(h) - h[i] as nat + b as nat && h[i := b][148..156] == h[148..156]
  {
    hide SumBytes;
    var g := h[i := b];
    if i < 148 {
      SumOfUpdate(h[..148], i, b);
      assert g[..148] == h[..148][i := b] && g[156..] == h[156..];
    } else {
      SumOfUpdate(h[156..], i - 156, b);
      assert g[156..] == h[156..][i - 156 := b] && g[..148] == h[..148];
    }
  }

  /** No single damaged byte outside the field passes. */
  lemma ChecksumCatchesAByte(h: Bytes, i: nat, b: byte)
    requires |h| == BLOCK && ValidTarChecksum(h) && Covered(i) && b != h[i]
    ensures !ValidTarChecksum(h[i := b])
  {
    HeaderSumOfUpdate(h, i, b);
  }

  /** Raising one byte outside the field by one raises the number that the field must hold by one. */
  lemma ChecksumCountsEachByte(h: Bytes, i: nat, number: nat, field: Bytes)
    requires |h| == BLOCK && ValidTarChecksum(h) && ParseTarNumber(h[148..156]) == Some(number)
    requires Covered(i) && h[i] < 255 && |field| == 8
    ensures ValidTarChecksum(h[i := h[i] + 1][..148] + field + h[i := h[i] + 1][156..]) <==> ParseTarNumber(field) == Some(number + 1)
  {
    hide ParseTarNumber, SumBytes;
    var g := h[i := h[i] + 1];
    var changed := g[..148] + field + g[156..];
    HeaderSumOfUpdate(h, i, h[i] + 1);
    assert changed[..148] == g[..148] && changed[148..156] == field && changed[156..] == g[156..];
  }

  /** The field itself counts as eight spaces: a header of zeros must hold 256. */
  lemma ChecksumOfZeros(h: Bytes)
    requires |h| == BLOCK && forall i: nat | Covered(i) :: h[i] == 0
    ensures ValidTarChecksum(h) <==> ParseTarNumber(h[148..156]) == Some(256)
  {
    hide ParseTarNumber;
    SumOfZeros(h[..148]);
    SumOfZeros(h[156..]);
  }

  lemma {:induction false} SumOfZeros(bytes: Bytes)
    requires forall i | 0 <= i < |bytes| :: bytes[i] == 0
    ensures SumBytes(bytes) == 0
  {
    if bytes != [] { SumOfZeros(bytes[1..]); }
  }

  // ----- Text

  predicate Continues(b: byte) { 0x80 <= b <= 0xbf }

  /** The well-formed byte sequences of UTF-8, RFC 3629 section 4. */
  predicate ValidUtf8(b: Bytes) {
    if b == [] then true
    else if b[0] < 0x80 then ValidUtf8(b[1..])
    else if 0xc2 <= b[0] <= 0xdf then |b| >= 2 && Continues(b[1]) && ValidUtf8(b[2..])
    else if 0xe0 <= b[0] <= 0xef then
      && |b| >= 3 && Continues(b[1]) && Continues(b[2])
      && (b[0] == 0xe0 ==> b[1] >= 0xa0) && (b[0] == 0xed ==> b[1] <= 0x9f) && ValidUtf8(b[3..])
    else if 0xf0 <= b[0] <= 0xf4 then
      && |b| >= 4 && Continues(b[1]) && Continues(b[2]) && Continues(b[3])
      && (b[0] == 0xf0 ==> b[1] >= 0x90) && (b[0] == 0xf4 ==> b[1] <= 0x8f) && ValidUtf8(b[4..])
    else false
  }

  // The encoding of section 3 of RFC 3629.

  predicate IsScalar(code: nat) { code <= 0x10ffff && !(0xd800 <= code <= 0xdfff) }

  function Encoding(code: nat): (b: Bytes)
    requires IsScalar(code)
    ensures b != []
  {
    if code < 0x80 then [code as byte]
    else if code < 0x800 then [(0xc0 + code / 64) as byte, (0x80 + code % 64) as byte]
    else if code < 0x10000 then [(0xe0 + code / 4096) as byte, (0x80 + code / 64 % 64) as byte, (0x80 + code % 64) as byte]
    else
      [(0xf0 + code / 262144) as byte, (0x80 + code / 4096 % 64) as byte, (0x80 + code / 64 % 64) as byte, (0x80 + code % 64) as byte]
  }

  function EncodeText(codes: seq<nat>): Bytes
    requires forall c <- codes :: IsScalar(c)
  {
    if codes == [] then [] else Encoding(codes[0]) + EncodeText(codes[1..])
  }

  lemma EncodedIsValid(code: nat, rest: Bytes)
    requires IsScalar(code)
    ensures ValidUtf8(Encoding(code) + rest) <==> ValidUtf8(rest)
  {
    var (b, n) := (Encoding(code) + rest, |Encoding(code)|);
    assert b[n..] == rest;
  }

  function Decoded(b: Bytes): (code: nat)
    requires b != [] && ValidUtf8(b)
  {
    if b[0] < 0x80 then b[0] as nat
    else if b[0] <= 0xdf then (b[0] as nat - 0xc0) * 64 + (b[1] as nat - 0x80)
    else if b[0] <= 0xef then (b[0] as nat - 0xe0) * 4096 + (b[1] as nat - 0x80) * 64 + (b[2] as nat - 0x80)
    else (b[0] as nat - 0xf0) * 262144 + (b[1] as nat - 0x80) * 4096 + (b[2] as nat - 0x80) * 64 + (b[3] as nat - 0x80)
  }

  lemma TwoDigits(x: nat, y: nat)
    requires y < 64
    ensures (x * 64 + y) / 64 == x && (x * 64 + y) % 64 == y
  {}

  lemma ThreeDigits(x: nat, y: nat, z: nat)
    requires y < 64 && z < 64
    ensures var code := x * 4096 + y * 64 + z; code / 4096 == x && code / 64 % 64 == y && code % 64 == z
  {
    TwoDigits(x, y);
    TwoDigits(x * 64 + y, z);
  }

  lemma FourDigits(x: nat, y: nat, z: nat, w: nat)
    requires y < 64 && z < 64 && w < 64
    ensures var code := x * 262144 + y * 4096 + z * 64 + w;
      code / 262144 == x && code / 4096 % 64 == y && code / 64 % 64 == z && code % 64 == w
  {
    ThreeDigits(x, y, z);
    TwoDigits(x * 4096 + y * 64 + z, w);
  }

  /** Three digits in base 64 make a scalar value of three bytes: not below the shorter forms, no surrogate. */
  lemma EncodeThree(x: nat, y: nat, z: nat)
    requires x < 16 && y < 64 && z < 64 && (x == 0 ==> y >= 32) && (x == 13 ==> y < 32)
    ensures var code := x * 4096 + y * 64 + z;
      IsScalar(code) && Encoding(code) == [(0xe0 + x) as byte, (0x80 + y) as byte, (0x80 + z) as byte]
  {
    ThreeDigits(x, y, z);
    assert 0x800 <= x * 4096 + y * 64 + z < 0x10000;
  }

  lemma EncodeFour(x: nat, y: nat, z: nat, w: nat)
    requires x <= 4 && y < 64 && z < 64 && w < 64 && (x == 0 ==> y >= 16) && (x == 4 ==> y < 16)
    ensures var code := x * 262144 + y * 4096 + z * 64 + w;
      IsScalar(code)
      && Encoding(code) == [(0xf0 + x) as byte, (0x80 + y) as byte, (0x80 + z) as byte, (0x80 + w) as byte]
  {
    FourDigits(x, y, z, w);
    assert 0x10000 <= x * 262144 + y * 4096 + z * 64 + w <= 0x10ffff;
  }

  lemma ThreeBytesDecode(b: Bytes)
    requires b != [] && ValidUtf8(b) && 0xe0 <= b[0] <= 0xef
    ensures IsScalar(Decoded(b)) && Encoding(Decoded(b)) == b[..3]
  {
    EncodeThree(b[0] as nat - 0xe0, b[1] as nat - 0x80, b[2] as nat - 0x80);
    hide Encoding, IsScalar;
    assert b[..3] == [b[0], b[1], b[2]];
  }

  lemma FourBytesDecode(b: Bytes)
    requires b != [] && ValidUtf8(b) && 0xf0 <= b[0] <= 0xf4
    ensures IsScalar(Decoded(b)) && Encoding(Decoded(b)) == b[..4]
  {
    EncodeFour(b[0] as nat - 0xf0, b[1] as nat - 0x80, b[2] as nat - 0x80, b[3] as nat - 0x80);
    hide Encoding, IsScalar;
    assert b[..4] == [b[0], b[1], b[2], b[3]];
  }

  lemma ValidStartsEncoded(b: Bytes)
    requires b != [] && ValidUtf8(b)
    ensures IsScalar(Decoded(b)) && Encoding(Decoded(b)) <= b && ValidUtf8(b[|Encoding(Decoded(b))|..])
  {
    if b[0] < 0x80 {
    } else if b[0] <= 0xdf {
      TwoDigits(b[0] as nat - 0xc0, b[1] as nat - 0x80);
    } else if b[0] <= 0xef {
      ThreeBytesDecode(b);
      hide Encoding, Decoded, IsScalar;
    } else {
      FourBytesDecode(b);
      hide Encoding, Decoded, IsScalar;
    }
  }

  /** The test accepts exactly the encodings of lists of Unicode scalar values: shortest forms, no surrogates, nothing
      beyond the last code point. */
  lemma {:induction false} Utf8Means(b: Bytes)
    ensures ValidUtf8(b) <==> exists codes: seq<nat> :: (forall c <- codes :: IsScalar(c)) && EncodeText(codes) == b
  {
    if ValidUtf8(b) { var _ := TextOfValid(b); }
    if codes: seq<nat> :| (forall c <- codes :: IsScalar(c)) && EncodeText(codes) == b { EncodedTextIsValid(codes); }
  }

  lemma {:induction false} TextOfValid(b: Bytes) returns (codes: seq<nat>)
    requires ValidUtf8(b)
    ensures (forall c <- codes :: IsScalar(c)) && EncodeText(codes) == b
  {
    if b == [] {
      codes := [];
    } else {
      ValidStartsEncoded(b);
      var code := Decoded(b);
      var rest := TextOfValid(b[|Encoding(code)|..]);
      codes := [code] + rest;
      assert codes[1..] == rest && b == Encoding(code) + b[|Encoding(code)|..];
    }
  }

  lemma {:induction false} EncodedTextIsValid(codes: seq<nat>)
    requires forall c <- codes :: IsScalar(c)
    ensures ValidUtf8(EncodeText(codes))
  {
    if codes != [] {
      assert codes[0] in codes && forall c <- codes[1..] :: c in codes;
      EncodedTextIsValid(codes[1..]);
      EncodedIsValid(codes[0], EncodeText(codes[1..]));
    }
  }

  function AsText(b: Bytes): (s: string)
    ensures |s| == |b| && forall i | 0 <= i < |b| :: s[i] == b[i] as int as char
  {
    seq(|b|, i requires 0 <= i < |b| => b[i] as int as char)
  }

  /** The position of the first NUL, or the length. */
  function FirstNul(b: Bytes): (n: nat)
    ensures n <= |b| && (n < |b| ==> b[n] == 0) && forall i | 0 <= i < n :: b[i] != 0
  {
    if b == [] || b[0] == 0 then 0 else 1 + FirstNul(b[1..])
  }

  predicate AllZero(b: Bytes) { forall i | 0 <= i < |b| :: b[i] == 0 }

  /** Text padded with NUL bytes only. */
  function TarString(b: Bytes): Option<string> {
    var end := FirstNul(b);
    if !AllZero(b[end..]) || !ValidUtf8(b[..end]) then None else Some(AsText(b[..end]))
  }

  function TarPath(h: Bytes): Option<string>
    requires |h| == BLOCK
  {
    match (TarString(h[..100]), TarString(h[345..500]))
    case (Some(name), Some(prefix)) =>
      if name == "" then None else if prefix == "" then Some(name) else Some(prefix + "/" + name)
    case _ => None
  }

  // ----- Member paths

  predicate SafeArchivePath(path: string) { ValidRelativePath(path, MAX_TAR_PATH_BYTES) }

  function WithoutDots(parts: seq<string>): (r: seq<string>)
    ensures |r| <= |parts| && forall p <- r :: p in parts && p != "."
  {
    if parts == [] then [] else (if parts[0] == "." then [] else [parts[0]]) + WithoutDots(parts[1..])
  }

  /** The canonical path of a member, and whether the member spells it with one inner dot segment. */
  function NormalizeNpmPath(path: string): (r: Option<(string, bool)>)
    ensures r.Some? ==> SafeArchivePath(r.value.0) && (r.value.1 <==> r.value.0 != path)
  {
    if SafeArchivePath(path) then Some((path, false))
    else if path == "" || |path| > MAX_TAR_PATH_BYTES || StartsWith(path, "/") || exists c <- path :: c == '\\' || IsControl(c)
    then None
    else
      var parts := Split(path, "/");
      if |WithoutDots(parts)| + 1 != |parts| || parts[0] == "." || parts[|parts| - 1] == "."
         || exists p <- parts :: p == "" || p == ".."
      then None
      else
        var canonical := Join(WithoutDots(parts), "/");
        if SafeArchivePath(canonical) then Some((canonical, true)) else None
  }

  /** Normalising twice changes nothing. */
  lemma NormalizationIsIdempotent(path: string)
    requires NormalizeNpmPath(path).Some?
    ensures NormalizeNpmPath(NormalizeNpmPath(path).value.0) == Some((NormalizeNpmPath(path).value.0, false))
  {}

  lemma {:induction false} OneDot(parts: seq<string>) returns (k: nat)
    requires |WithoutDots(parts)| + 1 == |parts|
    ensures k < |parts| && parts[k] == "." && WithoutDots(parts) == parts[..k] + parts[k + 1..]
  {
    if parts[0] == "." {
      k := 0;
      NoDot(parts[1..]);
    } else {
      var j := OneDot(parts[1..]);
      k := j + 1;
      assert parts[..k] == [parts[0]] + parts[1..][..j] && parts[k + 1..] == parts[1..][j + 1..];
    }
  }

  lemma {:induction false} NoDot(parts: seq<string>)
    requires |WithoutDots(parts)| == |parts|
    ensures WithoutDots(parts) == parts
  {
    if parts != [] { NoDot(parts[1..]); }
  }

  lemma {:induction false} JoinAround(a: seq<string>, b: seq<string>)
    requires a != [] && b != []
    ensures Join(a + b, "/") == Join(a, "/") + "/" + Join(b, "/")
  {
    if |a| == 1 {
      assert (a + b)[1..] == b;
    } else {
      assert (a + b)[1..] == a[1..] + b;
      JoinAround(a[1..], b);
      assert Join(a + b, "/") == a[0] + "/" + Join(a[1..] + b, "/");
      assert a[0] + "/" + (Join(a[1..], "/") + "/" + Join(b, "/")) == (a[0] + "/" + Join(a[1..], "/")) + "/" + Join(b, "/");
    }
  }

  lemma JoinDot(a: seq<string>, b: seq<string>)
    requires a != [] && b != []
    ensures Join(a + (["."] + b), "/") == Join(a, "/") + "/./" + Join(b, "/")
  {
    JoinAround(a, ["."] + b);
    assert (["."] + b)[1..] == b;
    DotText(Join(a, "/"), Join(b, "/"));
  }

  lemma DotText(front: string, back: string)
    ensures front + "/" + ("." + "/" + back) == front + "/./" + back
  {}

  lemma CutAt(parts: seq<string>, k: nat)
    requires k < |parts| && parts[k] == "."
    ensures parts == parts[..k] + (["."] + parts[k + 1..])
  {}

  /** A dotted alias is its canonical path with one dot segment put between two of the path's segments. */
  lemma AliasHasOneDot(path: string) returns (front: string, back: string)
    requires NormalizeNpmPath(path).Some? && NormalizeNpmPath(path).value.1
    ensures path == front + "/./" + back && NormalizeNpmPath(path).value.0 == front + "/" + back
  {
    hide ValidRelativePath, Split, Join, WithoutDots;
    var parts := Split(path, "/");
    var k := OneDot(parts);
    var (a, b) := (parts[..k], parts[k + 1..]);
    assert a != [] && b != [];
    front, back := Join(a, "/"), Join(b, "/");
    JoinInvertsSplit(path, "/");
    CutAt(parts, k);
    JoinDot(a, b);
    JoinAround(a, b);
  }

  lemma {:induction false} WithoutDotsAround(a: seq<string>, b: seq<string>)
    requires (forall i | 0 <= i < |a| :: a[i] != ".") && (forall i | 0 <= i < |b| :: b[i] != ".")
    ensures WithoutDots(a + ["."] + b) == a + b
  {
    if a == [] {
      assert ([] + ["."] + b)[1..] == b;
      Dotless(b);
    } else {
      assert (a + ["."] + b)[1..] == a[1..] + ["."] + b;
      WithoutDotsAround(a[1..], b);
    }
  }

  lemma {:induction false} Dotless(parts: seq<string>)
    requires forall i | 0 <= i < |parts| :: parts[i] != "."
    ensures WithoutDots(parts) == parts
  {
    if parts != [] { Dotless(parts[1..]); }
  }

  lemma DotSplits(front: string, back: string)
    ensures Split(front + "/./" + back, "/") == Split(front, "/") + ["."] + Split(back, "/")
    ensures Split(front + "/" + back, "/") == Split(front, "/") + Split(back, "/")
  {
    hide Split;
    SplitAtSlash(front, "./" + back);
    assert front + "/" + ("./" + back) == front + "/./" + back;
    SplitAtSlash(".", back);
    assert "." + "/" + back == "./" + back;
    OneDotSplits();
    SplitAtSlash(front, back);
  }

  lemma OneDotSplits()
    ensures Split(".", "/") == ["."]
  {
    NoSlash(".");
  }

  lemma DottedChars(front: string, back: string)
    requires SafeArchivePath(front + "/" + back)
    ensures var path := front + "/./" + back;
      path != "" && !StartsWith(path, "/") && forall c <- path :: c != '\\' && !IsControl(c)
  {
    var (path, canonical) := (front + "/./" + back, front + "/" + back);
    assert canonical[0] in canonical && path[0] == canonical[0];
    forall c <- path ensures c == '.' || c in canonical {
      var k :| 0 <= k < |path| && path[k] == c;
      if k < |front| { assert canonical[k] == c; }
      if k == |front| || k == |front| + 2 { assert canonical[|front|] == c; }
      if k > |front| + 2 { assert canonical[k - 2] == c; }
    }
  }

  lemma DottedPathIsAlias(front: string, back: string)
    requires SafeArchivePath(front + "/" + back) && |front + "/./" + back| <= MAX_TAR_PATH_BYTES
    ensures NormalizeNpmPath(front + "/./" + back) == Some((front + "/" + back, true))
  {
    hide Split, Join, IsControl;
    var (path, canonical) := (front + "/./" + back, front + "/" + back);
    var (a, b) := (Split(front, "/"), Split(back, "/"));
    var parts := a + ["."] + b;
    DotSplits(front, back);
    DottedChars(front, back);
    forall p <- a + b ensures p in Split(canonical, "/") {}
    forall i | 0 <= i < |a| ensures a[i] != "." {
      assert (a + b)[i] == a[i] && a[i] in Split(canonical, "/");
    }
    forall i | 0 <= i < |b| ensures b[i] != "." {
      assert (a + b)[|a| + i] == b[i] && b[i] in Split(canonical, "/");
    }
    WithoutDotsAround(a, b);
    JoinInvertsSplit(canonical, "/");
    assert parts[|a|] == "." && parts[0] == a[0] && parts[|parts| - 1] == b[|b| - 1];
    assert !SafeArchivePath(path) by { assert "." in parts; }
    assert forall p <- parts :: p == "." || p in a + b;
  }

  /** Exactly the dotted aliases: a path within the bound with one "." segment inside a safe path. */
  lemma AliasesAreDottedPaths(path: string, canonical: string)
    ensures NormalizeNpmPath(path) == Some((canonical, true)) <==>
      && SafeArchivePath(canonical) && |path| <= MAX_TAR_PATH_BYTES
      && exists front: string, back: string :: path == front + "/./" + back && canonical == front + "/" + back
  {
    hide ValidRelativePath, Split, WithoutDots, Join;
    if NormalizeNpmPath(path) == Some((canonical, true)) {
      var front, back := AliasHasOneDot(path);
      assert path == front + "/./" + back && canonical == front + "/" + back;
    }
    if SafeArchivePath(canonical) && |path| <= MAX_TAR_PATH_BYTES {
      if front: string, back: string :| path == front + "/./" + back && canonical == front + "/" + back {
        DottedPathIsAlias(front, back);
      }
    }
  }
}
