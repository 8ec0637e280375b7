/** The two unpadded base64url decoders: the re-encoding one that reads signatures, and the
    build-time one that reads embedded public keys and tests the trailing bits instead. */
module Base64Url {
  import opened Wrappers

  type byte = bv8

  const EQUALS: byte := 61

  /** The base64url alphabet of section 5 of RFC 4648, as a function of a six-bit value. */
  function Symbol(v: byte): byte {
    if v < 26 then v + 65
    else if v < 52 then v + 71
    else if v < 62 then v - 4
    else if v == 62 then 45
    else 95
  }

  function Value(c: byte): Option<byte> {
    if 65 <= c <= 90 then Some(c - 65)
    else if 97 <= c <= 122 then Some(c - 97 + 26)
    else if 48 <= c <= 57 then Some(c - 48 + 52)
    else if c == 45 then Some(62)
    else if c == 95 then Some(63)
    else None
  }

  /** The alphabet in order: A to Z, a to z, 0 to 9, the hyphen and the underscore; the padding character is not in it. */
  lemma Alphabet(v: byte)
    requires v < 63
    ensures Symbol(0) == 0x41 && Symbol(25) == 0x5a && Symbol(26) == 0x61 && Symbol(51) == 0x7a
    ensures Symbol(52) == 0x30 && Symbol(61) == 0x39 && Symbol(62) == 0x2d && Symbol(63) == 0x5f
    ensures v != 25 && v != 51 && v != 61 && v != 62 ==> Symbol(v + 1) == Symbol(v) + 1
    ensures EQUALS == 0x3d
  {}

  /** Test vectors of section 10 of RFC 4648, unpadded, and the two characters that make the alphabet safe in URLs. */
  lemma TestVectors()
    ensures Encode([]) == [] && Encode([0x66]) == [0x5a, 0x67] && Encode([0x66, 0x6f]) == [0x5a, 0x6d, 0x38]
    ensures Encode([0x66, 0x6f, 0x6f]) == [0x5a, 0x6d, 0x39, 0x76] && Encode([0xfb, 0xff]) == [0x2d, 0x5f, 0x38]
  {}

  lemma ValueInvertsSymbol(v: byte)
    requires v < 64
    ensures Value(Symbol(v)) == Some(v)
  {}

  lemma SymbolInvertsValue(c: byte)
    requires Value(c).Some?
    ensures Value(c).value < 64 && Symbol(Value(c).value) == c && c != EQUALS
  {}

  // ----- One group of the encoding

  function Symbol1(x: byte): byte { Symbol(x >> 2) }
  function Symbol2(x: byte, y: byte): byte { Symbol(((x & 3) << 4) | (y >> 4)) }
  function Symbol3(y: byte, z: byte): byte { Symbol(((y & 15) << 2) | (z >> 6)) }
  function Symbol4(z: byte): byte { Symbol(z & 63) }

  function Byte1(a: byte, b: byte): byte { (a << 2) | (b >> 4) }
  function Byte2(b: byte, c: byte): byte { (b << 4) | (c >> 2) }
  function Byte3(c: byte, d: byte): byte { (c << 6) | d }

  /** The four characters for three bytes. */
  function Group(x: byte, y: byte, z: byte): (text: seq<byte>)
    ensures |text| == 4
  {
    [Symbol1(x), Symbol2(x, y), Symbol3(y, z), Symbol4(z)]
  }

  function Encode(bytes: seq<byte>): (text: seq<byte>)
    ensures |text| == TextLength(|bytes|)
  {
    if |bytes| == 0 then []
    else if |bytes| == 1 then [Symbol1(bytes[0]), Symbol2(bytes[0], 0)]
    else if |bytes| == 2 then [Symbol1(bytes[0]), Symbol2(bytes[0], bytes[1]), Symbol3(bytes[1], 0)]
    else Group(bytes[0], bytes[1], bytes[2]) + Encode(bytes[3..])
  }

  /** The number of characters that hold `n` bytes: eight times `n`, divided by six and rounded up. */
  function TextLength(n: nat): nat { (n * 8 + 5) / 6 }

  // ----- What the encoding means: the same bits, regrouped

  ghost function Bits8(v: byte): seq<bool> {
    [v & 128 != 0, v & 64 != 0] + Bits6(v)
  }

  ghost function Bits6(v: byte): seq<bool> {
    [v & 32 != 0, v & 16 != 0, v & 8 != 0, v & 4 != 0, v & 2 != 0, v & 1 != 0]
  }

  ghost function ByteBits(bytes: seq<byte>): seq<bool> {
    if bytes == [] then [] else Bits8(bytes[0]) + ByteBits(bytes[1..])
  }

  /** The bit string a text spells, six bits a character; None when a character is foreign. */
  ghost function TextBits(text: seq<byte>): Option<seq<bool>> {
    if text == [] then Some([])
    else
      match (Value(text[0]), TextBits(text[1..]))
      case (Some(v), Some(rest)) => Some(Bits6(v) + rest)
      case _ => None
  }

  /** The zero bits that fill the last character. */
  ghost function Padding(n: nat): seq<bool> {
    if n % 3 == 0 then [] else if n % 3 == 1 then [false, false, false, false] else [false, false]
  }

  // The pieces of three bytes between the borders of their four six-bit groups.
  ghost function High6(x: byte): seq<bool> {
    [x & 128 != 0, x & 64 != 0, x & 32 != 0, x & 16 != 0, x & 8 != 0, x & 4 != 0]
  }
  ghost function Low2(x: byte): seq<bool> { [x & 2 != 0, x & 1 != 0] }
  ghost function High4(y: byte): seq<bool> { [y & 128 != 0, y & 64 != 0, y & 32 != 0, y & 16 != 0] }
  ghost function Low4(y: byte): seq<bool> { [y & 8 != 0, y & 4 != 0, y & 2 != 0, y & 1 != 0] }
  ghost function High2(z: byte): seq<bool> { [z & 128 != 0, z & 64 != 0] }

  lemma Pieces(x: byte)
    ensures Bits8(x) == High6(x) + Low2(x)
    ensures Bits8(x) == High4(x) + Low4(x)
    ensures Bits8(x) == High2(x) + Bits6(x)
  {}

  /** The bits a valid character contributes. */
  ghost function CharBits(c: byte): seq<bool>
    requires Value(c).Some?
  {
    Bits6(Value(c).value)
  }

  lemma CharBits1(x: byte)
    ensures Value(Symbol1(x)) == Some(x >> 2) && CharBits(Symbol1(x)) == High6(x)
  {
    ValueInvertsSymbol(x >> 2);
  }

  lemma CharBits2(x: byte, y: byte)
    ensures Value(Symbol2(x, y)) == Some(((x & 3) << 4) | (y >> 4))
    ensures CharBits(Symbol2(x, y)) == Low2(x) + High4(y)
  {
    ValueInvertsSymbol(((x & 3) << 4) | (y >> 4));
  }

  lemma CharBits3(y: byte, z: byte)
    ensures Value(Symbol3(y, z)) == Some(((y & 15) << 2) | (z >> 6))
    ensures CharBits(Symbol3(y, z)) == Low4(y) + High2(z)
  {
    ValueInvertsSymbol(((y & 15) << 2) | (z >> 6));
  }

  lemma CharBits4(z: byte)
    ensures Value(Symbol4(z)) == Some(z & 63) && CharBits(Symbol4(z)) == Bits6(z)
  {
    ValueInvertsSymbol(z & 63);
  }

  lemma PaddingPieces()
    ensures High4(0) == Padding(1) && High2(0) == Padding(2)
  {}

  lemma TextBits2(a: byte, b: byte)
    requires Value(a).Some? && Value(b).Some?
    ensures TextBits([a, b]) == Some(CharBits(a) + CharBits(b))
  {
    assert [a, b][1..] == [b] && [b][1..] == [];
    assert CharBits(b) + [] == CharBits(b);
    assert TextBits([b]) == Some(CharBits(b));
  }

  lemma TextBits3(a: byte, b: byte, c: byte)
    requires Value(a).Some? && Value(b).Some? && Value(c).Some?
    ensures TextBits([a, b, c]) == Some(CharBits(a) + (CharBits(b) + CharBits(c)))
  {
    TextBits2(b, c);
    assert [a, b, c][1..] == [b, c];
  }

  lemma TextBits4(a: byte, b: byte, c: byte, d: byte, rest: seq<byte>)
    requires Value(a).Some? && Value(b).Some? && Value(c).Some? && Value(d).Some? && TextBits(rest).Some?
    ensures TextBits([a, b, c, d] + rest)
            == Some(CharBits(a) + (CharBits(b) + (CharBits(c) + (CharBits(d) + TextBits(rest).value))))
  {
    var t := [a, b, c, d] + rest;
    assert t[1..] == [b, c, d] + rest && t[1..][1..] == [c, d] + rest;
    assert t[1..][1..][1..] == [d] + rest && t[1..][1..][1..][1..] == rest;
    assert TextBits([d] + rest) == Some(CharBits(d) + TextBits(rest).value);
    assert TextBits([c, d] + rest) == Some(CharBits(c) + (CharBits(d) + TextBits(rest).value));
  }

  lemma Regroup(h6: seq<bool>, l2: seq<bool>, h4: seq<bool>, l4: seq<bool>, h2: seq<bool>, l6: seq<bool>,
                rest: seq<bool>)
    ensures h6 + ((l2 + h4) + ((l4 + h2) + (l6 + rest))) == (h6 + l2) + ((h4 + l4) + ((h2 + l6) + rest))
  {}

  lemma RegroupLast(h6: seq<bool>, l2: seq<bool>, h4: seq<bool>, l4: seq<bool>, padding: seq<bool>)
    ensures h6 + ((l2 + h4) + (l4 + padding)) == (h6 + l2) + (h4 + l4) + padding
  {}

  lemma AppendLast(x: seq<bool>, y: seq<bool>, z: seq<bool>, rest: seq<bool>, padding: seq<bool>)
    ensures x + (y + (z + (rest + padding))) == (x + (y + (z + rest))) + padding
  {}

  lemma ThreeByteBits(x: byte, y: byte, z: byte, rest: seq<byte>, bits: seq<bool>)
    requires TextBits(rest) == Some(bits)
    ensures TextBits(Group(x, y, z) + rest)
            == Some(Bits8(x) + (Bits8(y) + (Bits8(z) + bits)))
  {
    CharBits1(x); CharBits2(x, y); CharBits3(y, z); CharBits4(z);
    TextBits4(Symbol1(x), Symbol2(x, y), Symbol3(y, z), Symbol4(z), rest);
    Pieces(x); Pieces(y); Pieces(z);
    Regroup(High6(x), Low2(x), High4(y), Low4(y), High2(z), Bits6(z), bits);
  }

  lemma TwoByteBits(x: byte, y: byte)
    ensures TextBits(Encode([x, y])) == Some(Bits8(x) + Bits8(y) + Padding(2))
  {
    CharBits1(x); CharBits2(x, y); CharBits3(y, 0); PaddingPieces();
    TextBits3(Symbol1(x), Symbol2(x, y), Symbol3(y, 0));
    Pieces(x); Pieces(y);
    assert Encode([x, y]) == [Symbol1(x), Symbol2(x, y), Symbol3(y, 0)];
    RegroupLast(High6(x), Low2(x), High4(y), Low4(y), Padding(2));
  }

  lemma OneByteBits(x: byte)
    ensures TextBits(Encode([x])) == Some(Bits8(x) + Padding(1))
  {
    CharBits1(x); CharBits2(x, 0); PaddingPieces();
    TextBits2(Symbol1(x), Symbol2(x, 0));
    Pieces(x);
    assert Encode([x]) == [Symbol1(x), Symbol2(x, 0)];
    assert High6(x) + (Low2(x) + Padding(1)) == Bits8(x) + Padding(1);
  }

  lemma ByteBitsStep(bytes: seq<byte>)
    requires |bytes| >= 3
    ensures ByteBits(bytes)
            == Bits8(bytes[0]) + (Bits8(bytes[1]) + (Bits8(bytes[2]) + ByteBits(bytes[3..])))
  {
    hide Bits8;
    var (t1, t2) := (bytes[1..], bytes[2..]);
    assert t1[1..] == t2 && t2[1..] == bytes[3..];
    assert ByteBits(t2) == Bits8(t2[0]) + ByteBits(bytes[3..]);
    assert ByteBits(t1) == Bits8(t1[0]) + ByteBits(t2);
    assert ByteBits(bytes) == Bits8(bytes[0]) + ByteBits(t1);
  }

  lemma ByteBitsShort(bytes: seq<byte>)
    requires 1 <= |bytes| <= 2
    ensures |bytes| == 1 ==> ByteBits(bytes) == Bits8(bytes[0])
    ensures |bytes| == 2 ==> ByteBits(bytes) == Bits8(bytes[0]) + Bits8(bytes[1])
  {
    hide Bits8;
    if |bytes| == 2 {
      ByteBitsShort(bytes[1..]);
    } else {
      assert Bits8(bytes[0]) + [] == Bits8(bytes[0]);
    }
  }

  /** Encoding keeps the bit string and appends only zero bits. */
  lemma {:induction false} EncodeKeepsBits(bytes: seq<byte>)
    ensures TextBits(Encode(bytes)) == Some(ByteBits(bytes) + Padding(|bytes|))
  {
    hide Bits8, Group, Symbol1, Symbol2, Symbol3;
    if |bytes| == 0 {
      assert Encode(bytes) == [] && ByteBits(bytes) + Padding(0) == [];
    } else if |bytes| < 3 {
      hide Encode, ByteBits, TextBits;
      ByteBitsShort(bytes);
      if |bytes| == 1 {
        OneByteBits(bytes[0]);
        assert bytes == [bytes[0]];
      } else {
        TwoByteBits(bytes[0], bytes[1]);
        assert bytes == [bytes[0], bytes[1]];
      }
    } else {
      hide Encode, ByteBits, TextBits, Padding;
      var tail := bytes[3..];
      EncodeKeepsBits(tail);
      assert Padding(|tail|) == Padding(|bytes|) by { PaddingStep(|tail|); }
      EncodeStep(bytes);
      ByteBitsStep(bytes);
      ThreeByteBits(bytes[0], bytes[1], bytes[2], Encode(tail), ByteBits(tail) + Padding(|tail|));
      AppendLast(Bits8(bytes[0]), Bits8(bytes[1]), Bits8(bytes[2]), ByteBits(tail), Padding(|bytes|));
    }
  }

  lemma PaddingStep(n: nat)
    ensures Padding(n + 3) == Padding(n)
  {}

  // ----- Encoding loses nothing

  lemma GroupRoundTrip(x: byte, y: byte, z: byte)
    ensures Byte1(x >> 2, ((x & 3) << 4) | (y >> 4)) == x
    ensures Byte2(((x & 3) << 4) | (y >> 4), ((y & 15) << 2) | (z >> 6)) == y
    ensures Byte3(((y & 15) << 2) | (z >> 6), z & 63) == z
  {}

  /** The symbols of a group determine its bytes, one after the other. */
  lemma SameSymbols(x1: byte, y1: byte, z1: byte, x2: byte, y2: byte, z2: byte)
    requires Symbol1(x1) == Symbol1(x2) && Symbol2(x1, y1) == Symbol2(x2, y2)
    ensures x1 == x2
    ensures Symbol3(y1, z1) == Symbol3(y2, z2) ==> y1 == y2
    ensures Symbol3(y1, z1) == Symbol3(y2, z2) && Symbol4(z1) == Symbol4(z2) ==> z1 == z2
  {
    CharBits1(x1); CharBits1(x2); CharBits2(x1, y1); CharBits2(x2, y2);
    CharBits3(y1, z1); CharBits3(y2, z2); CharBits4(z1); CharBits4(z2);
    GroupRoundTrip(x1, y1, z1); GroupRoundTrip(x2, y2, z2);
  }

  lemma {:induction false} EncodeInjective(b1: seq<byte>, b2: seq<byte>)
    requires Encode(b1) == Encode(b2)
    ensures b1 == b2
  {
    hide Symbol1, Symbol2, Symbol3, Symbol4;
    assert TextLength(|b1|) == TextLength(|b2|);
    var n := |b1|;
    if n > 0 {
      var t := Encode(b1);
      var (x1, x2) := (b1[0], b2[0]);
      var (y1, y2) := if n > 1 then (b1[1], b2[1]) else (0, 0);
      var (z1, z2) := if n > 2 then (b1[2], b2[2]) else (0, 0);
      assert t[0] == Symbol1(x1) == Symbol1(x2);
      assert t[1] == Symbol2(x1, y1) == Symbol2(x2, y2);
      SameSymbols(x1, y1, z1, x2, y2, z2);
      if n > 1 { assert t[2] == Symbol3(y1, z1) == Symbol3(y2, z2); }
      if n > 2 {
        assert t[3] == Symbol4(z1) == Symbol4(z2);
        assert Encode(b1[3..]) == t[4..] == Encode(b2[3..]);
        EncodeInjective(b1[3..], b2[3..]);
        assert b1 == [x1, y1, z1] + b1[3..] && b2 == [x2, y2, z2] + b2[3..];
      }
    }
  }

  /** The decoding both programs should compute: the one byte string of length `n` that encodes to
      the text, if there is one. */
  ghost function Decode(n: nat, text: seq<byte>): (r: Option<seq<byte>>)
    ensures r.Some? ==> |r.value| == n && Encode(r.value) == text
    ensures r.None? ==> forall bytes :: |bytes| == n ==> Encode(bytes) != text
  {
    if bytes :| |bytes| == n && Encode(bytes) == text then Some(bytes) else None
  }

  lemma DecodeInvertsEncode(bytes: seq<byte>)
    ensures Decode(|bytes|, Encode(bytes)) == Some(bytes)
  {
    var r := Decode(|bytes|, Encode(bytes));
    EncodeInjective(r.value, bytes);
  }

  // ----- The three loops

  lemma Associative<T>(a: seq<T>, b: seq<T>, c: seq<T>)
    ensures (a + b) + c == a + (b + c)
  {}

  lemma {:induction false} EncodeAppend(b1: seq<byte>, b2: seq<byte>)
    requires |b1| % 3 == 0
    ensures Encode(b1 + b2) == Encode(b1) + Encode(b2)
  {
    hide Encode, Group;
    if |b1| == 0 {
      EncodeNothing();
      assert b1 + b2 == b2 && b1 == [];
    } else {
      var both, group := b1 + b2, Group(b1[0], b1[1], b1[2]);
      EncodeAppend(b1[3..], b2);
      calc {
        Encode(both);
        { EncodeStep(both); assert both[3..] == b1[3..] + b2; }
        group + Encode(b1[3..] + b2);
        group + (Encode(b1[3..]) + Encode(b2));
        { Associative(group, Encode(b1[3..]), Encode(b2)); }
        (group + Encode(b1[3..])) + Encode(b2);
        { EncodeStep(b1); }
        Encode(b1) + Encode(b2);
      }
    }
  }

  lemma EncodeStep(bytes: seq<byte>)
    requires |bytes| >= 3
    ensures Encode(bytes) == Group(bytes[0], bytes[1], bytes[2]) + Encode(bytes[3..])
  {}

  lemma {:induction false} EncodeIsValid(bytes: seq<byte>, k: nat)
    requires k < |Encode(bytes)|
    ensures Value(Encode(bytes)[k]).Some? && Encode(bytes)[k] != EQUALS
  {
    var x := bytes[0];
    var y := if |bytes| > 1 then bytes[1] else 0;
    var z := if |bytes| > 2 then bytes[2] else 0;
    CharBits1(x); CharBits2(x, y); CharBits3(y, z); CharBits4(z);
    if k < 4 {
      SymbolInvertsValue(Encode(bytes)[k]);
    } else {
      EncodeIsValid(bytes[3..], k - 4);
    }
  }

  /** The group of characters that starts at a multiple of four encodes the bytes that start at the
      same multiple of three. */
  lemma EncodeGroup(bytes: seq<byte>, k: nat)
    requires 3 * k <= |bytes|
    ensures 4 * k <= |Encode(bytes)| && Encode(bytes)[4 * k..] == Encode(bytes[3 * k..])
  {
    assert bytes == bytes[..3 * k] + bytes[3 * k..];
    EncodeAppend(bytes[..3 * k], bytes[3 * k..]);
  }

  lemma PushFour(before: seq<byte>, a: byte, b: byte, c: byte, d: byte, rest: seq<byte>)
    ensures before + ([a, b, c, d] + rest) == before + [a] + [b] + [c] + [d] + rest
  {
    assert before + [a, b, c, d] == before + [a] + [b] + [c] + [d];
    Associative(before, [a, b, c, d], rest);
  }

  lemma PushFew(before: seq<byte>, a: byte, b: byte, c: byte)
    ensures before + [a, b] == before + [a] + [b] && before + [a, b, c] == before + [a] + [b] + [c]
  {}

  /** The characters of the next chunk, pushed one by one. */
  lemma NextChunk(before: seq<byte>, rest: seq<byte>)
    requires rest != []
    ensures |rest| == 1 ==> before + Encode(rest) == before + [Symbol1(rest[0])] + [Symbol2(rest[0], 0)]
    ensures |rest| == 2 ==>
      before + Encode(rest) == before + [Symbol1(rest[0])] + [Symbol2(rest[0], rest[1])] + [Symbol3(rest[1], 0)]
    ensures |rest| >= 3 ==>
      before + Encode(rest) == before + [Symbol1(rest[0])] + [Symbol2(rest[0], rest[1])] + [Symbol3(rest[1], rest[2])]
        + [Symbol4(rest[2])] + Encode(rest[3..])
  {
    hide Symbol1, Symbol2, Symbol3, Symbol4;
    if |rest| == 1 {
      PushFew(before, Symbol1(rest[0]), Symbol2(rest[0], 0), 0);
    } else if |rest| == 2 {
      PushFew(before, Symbol1(rest[0]), Symbol2(rest[0], rest[1]), Symbol3(rest[1], 0));
    } else {
      EncodeStep(rest);
      hide Encode;
      PushFour(before, Symbol1(rest[0]), Symbol2(rest[0], rest[1]), Symbol3(rest[1], rest[2]), Symbol4(rest[2]), Encode(rest[3..]));
    }
  }

  method EncodeNoPad(bytes: seq<byte>) returns (encoded: seq<byte>)
    ensures encoded == Encode(bytes)
    ensures TextBits(encoded) == Some(ByteBits(bytes) + Padding(|bytes|))
  {
    hide Symbol, Symbol1, Symbol2, Symbol3, Symbol4, TextBits, ByteBits, Padding, Encode, Group;
    encoded := [];
    EncodeNothing();
    assert bytes[0..] == bytes;
    var i := 0;
    while i < |bytes|
      invariant 0 <= i <= |bytes|
      invariant Encode(bytes) == encoded + Encode(bytes[i..])
    {
      var chunk := bytes[i..if i + 3 <= |bytes| then i + 3 else |bytes|];
      ghost var rest := bytes[i..];
      NextChunk(encoded, rest);
      encoded := encoded + [Symbol1(chunk[0])];
      encoded := encoded + [Symbol2(chunk[0], if |chunk| > 1 then chunk[1] else 0)];
      if |chunk| > 1 {
        encoded := encoded + [Symbol3(chunk[1], if |chunk| > 2 then chunk[2] else 0)];
      }
      if |chunk| > 2 {
        encoded := encoded + [Symbol4(chunk[2])];
      }
      i := i + |chunk|;
      if |chunk| == 3 {
        assert rest[3..] == bytes[i..];
      } else {
        assert bytes[i..] == [] && encoded + [] == encoded;
      }
    }
    assert bytes[i..] == [] && encoded + [] == encoded;
    EncodeKeepsBits(bytes);
  }

  /** What the characters of one group say about the bytes it encodes. */
  lemma GroupDecodes(rest: seq<byte>, n: nat)
    requires n == |Encode(rest)| && n > 0
    ensures n >= 2
    ensures var t := Encode(rest);
            (forall k | 0 <= k < n :: Value(t[k]).Some?)
            && Byte1(Value(t[0]).value, Value(t[1]).value) == rest[0]
            && (n >= 3 ==> |rest| >= 2 && Byte2(Value(t[1]).value, Value(t[2]).value) == rest[1])
            && (n >= 4 ==> |rest| >= 3 && Byte3(Value(t[2]).value, Value(t[3]).value) == rest[2])
            && (n < 4 ==> |rest| == n - 1)
  {
    var t := Encode(rest);
    var x := rest[0];
    var y := if |rest| > 1 then rest[1] else 0;
    var z := if |rest| > 2 then rest[2] else 0;
    CharBits1(x); CharBits2(x, y); CharBits3(y, z); CharBits4(z);
    GroupRoundTrip(x, y, z);
    forall k | 0 <= k < n ensures Value(t[k]).Some? {
      EncodeIsValid(rest, k);
    }
  }

  lemma TakeNext<T>(s: seq<T>, k: nat)
    requires k < |s|
    ensures s[..k] + [s[k]] == s[..k + 1]
  {}

  lemma GroupDecodesAt(bytes: seq<byte>, k: nat)
    requires 4 * k < |Encode(bytes)|
    ensures var (t, n) := (Encode(bytes), |Encode(bytes)|);
            && 4 * k + 1 < n && 3 * k < |bytes|
            && (forall i | 4 * k <= i < n :: Value(t[i]).Some?)
            && Byte1(Value(t[4 * k]).value, Value(t[4 * k + 1]).value) == bytes[3 * k]
            && (4 * k + 2 < n ==>
                  3 * k + 1 < |bytes|
                  && Byte2(Value(t[4 * k + 1]).value, Value(t[4 * k + 2]).value) == bytes[3 * k + 1])
            && (4 * k + 3 < n ==>
                  3 * k + 2 < |bytes|
                  && Byte3(Value(t[4 * k + 2]).value, Value(t[4 * k + 3]).value) == bytes[3 * k + 2])
            && (n < 4 * k + 4 ==> |bytes| == 3 * k + (n - 4 * k) - 1)
  {
    hide Value, Symbol, Symbol1, Symbol2, Symbol3, Symbol4, Byte1, Byte2, Byte3;
    EncodeGroup(bytes, k);
    var rest := bytes[3 * k..];
    GroupDecodes(rest, |Encode(rest)|);
    forall i | 4 * k <= i < |Encode(bytes)| ensures Value(Encode(bytes)[i]).Some? {
      assert Encode(bytes)[i] == Encode(rest)[i - 4 * k];
    }
  }

  lemma EncodeIsAllValid(bytes: seq<byte>)
    ensures forall k | 0 <= k < |Encode(bytes)| :: Value(Encode(bytes)[k]).Some?
    ensures EQUALS !in Encode(bytes)
  {
    forall k | 0 <= k < |Encode(bytes)| ensures Value(Encode(bytes)[k]).Some? && Encode(bytes)[k] != EQUALS {
      EncodeIsValid(bytes, k);
    }
  }

  /** One turn of the loop below keeps "what is decoded starts the expected bytes". */
  lemma DecodeChunk(expected: seq<byte>, k: nat, length: nat)
    requires 4 * k + length <= |Encode(expected)| && 0 < length <= 4
    requires length < 4 ==> 4 * k + length == |Encode(expected)|
    ensures 2 <= length && 3 * k + length - 1 <= |expected|
    ensures forall i | 4 * k <= i < 4 * k + length :: Value(Encode(expected)[i]).Some?
    ensures var (done, t) := (expected[..3 * k], Encode(expected));
            var (a, b) := (Value(t[4 * k]).value, Value(t[4 * k + 1]).value);
            if length == 2 then done + [Byte1(a, b)] == expected[..3 * k + 1]
            else var c := Value(t[4 * k + 2]).value;
              if length == 3 then done + [Byte1(a, b)] + [Byte2(b, c)] == expected[..3 * k + 2]
              else done + [Byte1(a, b)] + [Byte2(b, c)] + [Byte3(c, Value(t[4 * k + 3]).value)] == expected[..3 * k + 3]
  {
    hide Value, Encode, Byte1, Byte2, Byte3;
    GroupDecodesAt(expected, k);
    TakeNext(expected, 3 * k);
    if length > 2 { TakeNext(expected, 3 * k + 1); }
    if length > 3 { TakeNext(expected, 3 * k + 2); }
  }

  /** The decoder for signatures: decodes leniently, then compares the re-encoding with the input. */
  method DecodeNoPad(n: nat, value: seq<byte>) returns (r: Option<seq<byte>>)
    ensures r == Decode(n, value)
  {
    hide Value, Symbol, Byte1, Byte2, Byte3, Encode, Decode;
    ghost var expected := Decode(n, value);
    if expected.Some? {
      EncodeIsAllValid(expected.value);
      assert EQUALS !in value && |value| == TextLength(n);
    }
    if EQUALS in value || |value| != TextLength(n) {
      return None;
    }
    var decoded := [];
    var i := 0;
    ghost var k := 0;
    while i < |value|
      invariant 0 <= i <= |value|
      invariant if i < |value| then i == 4 * k && |decoded| == 3 * k else |decoded| == n
      invariant expected.Some? ==> decoded == expected.value[..|decoded|]
    {
      var length := if i + 4 <= |value| then 4 else |value| - i;
      if expected.Some? {
        DecodeChunk(expected.value, k, length);
      }
      var a, b := Value(value[i]), Value(value[i + 1]);
      if a == None || b == None { return None; }
      decoded := decoded + [Byte1(a.value, b.value)];
      if length >= 3 {
        var c := Value(value[i + 2]);
        if c == None { return None; }
        decoded := decoded + [Byte2(b.value, c.value)];
        if length == 4 {
          var d := Value(value[i + 3]);
          if d == None { return None; }
          decoded := decoded + [Byte3(c.value, d.value)];
        }
      }
      i, k := i + length, k + 1;
    }
    var again := EncodeNoPad(decoded);
    assert expected.Some? ==> decoded == expected.value;
    if again != value { return None; }
    DecodeInvertsEncode(decoded);
    r := Some(decoded);
  }

  lemma BytesEncodeBack(a: byte, b: byte, c: byte, d: byte)
    requires a < 64 && b < 64 && c < 64 && d < 64
    ensures Byte1(a, b) >> 2 == a
    ensures ((Byte1(a, b) & 3) << 4) | (Byte2(b, c) >> 4) == b
    ensures ((Byte2(b, c) & 15) << 2) | (Byte3(c, d) >> 6) == c
    ensures Byte3(c, d) & 63 == d
    ensures c & 3 == 0 <==> ((Byte2(b, c) & 15) << 2) | ((0 as byte) >> 6) == c
  {}

  lemma ReencodeGroup(t1: byte, t2: byte, t3: byte, t4: byte)
    requires Value(t1).Some? && Value(t2).Some? && Value(t3).Some? && Value(t4).Some?
    ensures var (a, b, c, d) := (Value(t1).value, Value(t2).value, Value(t3).value, Value(t4).value);
            Group(Byte1(a, b), Byte2(b, c), Byte3(c, d)) == [t1, t2, t3, t4]
  {
    hide Value, Symbol, Byte1, Byte2, Byte3;
    SymbolInvertsValue(t1); SymbolInvertsValue(t2); SymbolInvertsValue(t3); SymbolInvertsValue(t4);
    BytesEncodeBack(Value(t1).value, Value(t2).value, Value(t3).value, Value(t4).value);
  }

  lemma ReencodeLast(t1: byte, t2: byte, t3: byte)
    requires Value(t1).Some? && Value(t2).Some? && Value(t3).Some? && Value(t3).value & 3 == 0
    ensures var (a, b, c) := (Value(t1).value, Value(t2).value, Value(t3).value);
            [Symbol1(Byte1(a, b)), Symbol2(Byte1(a, b), Byte2(b, c)), Symbol3(Byte2(b, c), 0)] == [t1, t2, t3]
  {
    hide Value, Symbol, Byte1, Byte2, Byte3;
    SymbolInvertsValue(t1); SymbolInvertsValue(t2); SymbolInvertsValue(t3);
    BytesEncodeBack(Value(t1).value, Value(t2).value, Value(t3).value, 0);
  }

  /** A full group of valid characters re-encodes to itself. */
  lemma ReencodeFour(done: seq<byte>, x: byte, y: byte, z: byte)
    requires |done| % 3 == 0
    ensures Encode(done + [x, y, z]) == Encode(done) + Group(x, y, z)
  {
    hide Group;
    EncodeAppend(done, [x, y, z]);
    assert Encode([x, y, z]) == Group(x, y, z) + Encode([]) == Group(x, y, z);
  }

  lemma ReencodeThree(done: seq<byte>, x: byte, y: byte)
    requires |done| % 3 == 0
    ensures Encode(done + [x, y]) == Encode(done) + [Symbol1(x), Symbol2(x, y), Symbol3(y, 0)]
  {
    hide Symbol1, Symbol2, Symbol3, Group;
    EncodeAppend(done, [x, y]);
  }

  /** One full turn of the loop below keeps "what is decoded re-encodes to what is read". */
  lemma ReencodeChunk(done: seq<byte>, value: seq<byte>, i: nat)
    requires |done| % 3 == 0 && i + 4 <= |value| && Encode(done) == value[..i]
    requires Value(value[i]).Some? && Value(value[i + 1]).Some? && Value(value[i + 2]).Some? && Value(value[i + 3]).Some?
    ensures var (a, b) := (Value(value[i]).value, Value(value[i + 1]).value);
            var (c, d) := (Value(value[i + 2]).value, Value(value[i + 3]).value);
            Encode(done + [Byte1(a, b)] + [Byte2(b, c)] + [Byte3(c, d)]) == value[..i + 4]
  {
    hide Value, Symbol, Group, Byte1, Byte2, Byte3, Encode;
    var (a, b) := (Value(value[i]).value, Value(value[i + 1]).value);
    var (c, d) := (Value(value[i + 2]).value, Value(value[i + 3]).value);
    ReencodeGroup(value[i], value[i + 1], value[i + 2], value[i + 3]);
    ReencodeFour(done, Byte1(a, b), Byte2(b, c), Byte3(c, d));
    assert done + [Byte1(a, b)] + [Byte2(b, c)] + [Byte3(c, d)] == done + [Byte1(a, b), Byte2(b, c), Byte3(c, d)];
    assert value[..i] + [value[i], value[i + 1], value[i + 2], value[i + 3]] == value[..i + 4];
  }

  /** So does a last turn with three characters and zero trailing bits. */
  lemma ReencodeLastChunk(done: seq<byte>, value: seq<byte>, i: nat)
    requires |done| % 3 == 0 && i + 3 == |value| && Encode(done) == value[..i]
    requires Value(value[i]).Some? && Value(value[i + 1]).Some? && Value(value[i + 2]).Some?
    requires Value(value[i + 2]).value & 3 == 0
    ensures var (a, b, c) := (Value(value[i]).value, Value(value[i + 1]).value, Value(value[i + 2]).value);
            Encode(done + [Byte1(a, b)] + [Byte2(b, c)]) == value
  {
    hide Value, Symbol, Symbol1, Symbol2, Symbol3, Byte1, Byte2, Byte3, Encode;
    var (a, b, c) := (Value(value[i]).value, Value(value[i + 1]).value, Value(value[i + 2]).value);
    ReencodeLast(value[i], value[i + 1], value[i + 2]);
    ReencodeThree(done, Byte1(a, b), Byte2(b, c));
    assert done + [Byte1(a, b)] + [Byte2(b, c)] == done + [Byte1(a, b), Byte2(b, c)];
    assert value[..i] + [value[i], value[i + 1], value[i + 2]] == value;
  }

  /** The character before the end of a text for 3k + 2 bytes carries two trailing zero bits. */
  lemma TrailingBitsAreZero(bytes: seq<byte>)
    requires |bytes| % 3 == 2
    ensures var t := Encode(bytes);
            |t| > 0 && Value(t[|t| - 1]).Some? && Value(t[|t| - 1]).value & 3 == 0
  {
    hide Symbol;
    EncodeGroup(bytes, |bytes| / 3);
    var last := bytes[|bytes| / 3 * 3..];
    CharBits3(last[1], 0);
    assert Encode(last)[2] == Symbol3(last[1], 0);
    assert Encode(bytes)[|Encode(bytes)| - 1] == Encode(last)[2];
  }

  const KEY_BYTES: nat := 32
  const KEY_TEXT: nat := 43

  /** The build-time decoder for 32-byte keys: no re-encoding, but the two trailing bits must be zero. */
  method DecodeEmbeddedKey(value: seq<byte>) returns (r: Option<seq<byte>>)
    ensures r == Decode(KEY_BYTES, value)
  {
    hide Value, Symbol, Symbol1, Symbol2, Symbol3, Group, Byte1, Byte2, Byte3, Encode, Decode;
    ghost var expected := Decode(KEY_BYTES, value);
    if expected.Some? {
      EncodeIsAllValid(expected.value);
      TrailingBitsAreZero(expected.value);
      assert |value| == TextLength(KEY_BYTES);
    }
    if |value| != KEY_TEXT || EQUALS in value {
      return None;
    }
    var decoded := [];
    var i := 0;
    ghost var k := 0;
    EncodeNothing();
    while i < |value|
      invariant 0 <= i <= |value| == KEY_TEXT
      invariant if i < |value| then i == 4 * k && |decoded| == 3 * k else |decoded| == KEY_BYTES
      invariant Encode(decoded) == value[..i]
    {
      var length := if i + 4 <= |value| then 4 else |value| - i;
      ghost var done := decoded;
      var a, b := Value(value[i]), Value(value[i + 1]);
      if a == None || b == None { return None; }
      decoded := decoded + [Byte1(a.value, b.value)];
      if length >= 3 {
        var c := Value(value[i + 2]);
        if c == None { return None; }
        decoded := decoded + [Byte2(b.value, c.value)];
        if length == 4 {
          var d := Value(value[i + 3]);
          if d == None { return None; }
          decoded := decoded + [Byte3(c.value, d.value)];
          ReencodeChunk(done, value, i);
        } else if c.value & 3 != 0 {
          return None;
        } else {
          ReencodeLastChunk(done, value, i);
        }
      }
      i, k := i + length, k + 1;
    }
    DecodeInvertsEncode(decoded);
    assert value[..i] == value;
    r := Some(decoded);
  }

  lemma EncodeNothing()
    ensures Encode([]) == []
  {}
}
