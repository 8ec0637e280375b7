/** The plain ustar printer: headers, archives, and how the parser reads a printed header. */
module TarPrinter {
  import opened Wrappers
  import opened Text
  import opened JsonScan
  import opened Inventory
  import opened TarHeader
  import opened TarArchive
  import opened TarFrames

  const FILE_MODE: nat := 0x1a4
  const NAME_BYTES: nat := 100

  datatype TarEntry = TarEntry(path: string, bytes: Bytes, kind: byte, target: string) {
    /** By the type flags of the ustar format: a file, a directory, a symbolic link, and GNU's long name. */
    predicate IsFile() { kind == 0x00 || kind == 0x30 }
    predicate IsDirectory() { kind == 0x35 }
    predicate IsLink() { kind == 0x32 }
    predicate IsLongName() { kind == 0x4c }
    predicate IsPax() { kind == 0x78 }
  }

  /** Text of well-formed UTF-8 without a NUL. */
  predicate IsName(s: string) { (forall c <- s :: 0 as char < c < 256 as char) && ValidUtf8(AsBytes(s)) }

  /** What fits a header: names of at most 100 bytes and a size of eleven octal digits. The type is any but a pax header's. */
  predicate Printable(e: TarEntry) {
    && IsName(e.path) && |e.path| <= NAME_BYTES && IsName(e.target) && |e.target| <= NAME_BYTES
    && |e.bytes| < Pow8(11)
    && !e.IsPax()
  }

  /** Octal digits and a closing NUL. */
  function Number(value: nat, width: nat): Bytes { OctalDigits(value, width) + [0] }

  function Padded(name: string): (b: Bytes)
    requires IsName(name) && |name| <= NAME_BYTES
    ensures |b| == NAME_BYTES
  {
    AsBytes(name) + Zeros(NAME_BYTES - |name|)
  }

  /** The header up to its checksum. */
  function Front(e: TarEntry): (b: Bytes)
    requires Printable(e)
    ensures |b| == 148
  {
    Padded(e.path) + Number(FILE_MODE, 7) + Number(0, 7) + Number(0, 7) + Number(|e.bytes|, 11) + Number(0, 11)
  }

  const MAGIC: Bytes := [0x75, 0x73, 0x74, 0x61, 0x72, 0, 0x30, 0x30]

  lemma MagicIsUstar()
    ensures MAGIC == Ascii("ustar") + [0] + Ascii("00")
  {}

  /** The type, the link name, the magic and version, and the unused rest. */
  function Back(e: TarEntry): (b: Bytes)
    requires Printable(e)
    ensures |b| == 356
  {
    [e.kind] + Padded(e.target) + MAGIC + Zeros(247)
  }

  function Checksum(e: TarEntry): nat
    requires Printable(e)
  {
    SumBytes(Front(e)) + 8 * SPACE as nat + SumBytes(Back(e))
  }

  function ChecksumField(sum: nat): (b: Bytes)
    ensures |b| == 8
  {
    OctalDigits(sum, 6) + [0, SPACE]
  }

  function Header(e: TarEntry): (h: Bytes)
    requires Printable(e)
    ensures |h| == BLOCK
  {
    Front(e) + ChecksumField(Checksum(e)) + Back(e)
  }

  function PrintEntry(e: TarEntry): Bytes
    requires Printable(e)
  {
    Header(e) + e.bytes + Zeros(Padding(|e.bytes|))
  }

  function PrintEntries(entries: seq<TarEntry>): Bytes
    requires forall e <- entries :: Printable(e)
  {
    if entries == [] then [] else PrintEntries(entries[..|entries| - 1]) + PrintEntry(entries[|entries| - 1])
  }

  function PrintTar(entries: seq<TarEntry>): Bytes
    requires forall e <- entries :: Printable(e)
  {
    PrintEntries(entries) + Zeros(2 * BLOCK)
  }

  // ----- The printer

  lemma InPrefix<T>(xs: seq<T>, i: nat, x: T)
    requires i <= |xs| && x in xs[..i]
    ensures x in xs
    ensures exists k | 0 <= k < i :: xs[k] == x
  {
    var k :| 0 <= k < i && xs[..i][k] == x;
  }

  /** The printed entries up to the `i`th start the printed archive. */
  lemma {:induction false} PrintedPrefix(entries: seq<TarEntry>, i: nat)
    requires (forall e <- entries :: Printable(e)) && i <= |entries|
    ensures (forall e <- entries[..i] :: Printable(e)) && PrintEntries(entries[..i]) <= PrintEntries(entries)
    decreases |entries| - i
  {
    hide PrintEntry, Printable;
    forall e <- entries[..i] ensures Printable(e) { InPrefix(entries, i, e); }
    if i < |entries| {
      PrintedPrefix(entries, i + 1);
      assert entries[..i + 1][..i] == entries[..i];
    } else {
      assert entries[..i] == entries;
    }
  }

  lemma PrintedNext(entries: seq<TarEntry>, i: nat)
    requires (forall e <- entries :: Printable(e)) && i < |entries|
    ensures (forall e <- entries[..i] :: Printable(e)) && (forall e <- entries[..i + 1] :: Printable(e))
    ensures Printable(entries[i]) && PrintEntries(entries[..i + 1]) == PrintEntries(entries[..i]) + PrintEntry(entries[i])
  {
    hide PrintEntry, Printable;
    PrintedPrefix(entries, i);
    PrintedPrefix(entries, i + 1);
    assert entries[i] in entries;
    assert entries[..i + 1][..i] == entries[..i];
  }

  /** The printer's loop: each record is padded to a block, and two zero blocks end the archive. */
  method Tar(entries: seq<TarEntry>) returns (output: Bytes)
    requires forall e <- entries :: Printable(e)
    ensures output == PrintTar(entries)
  {
    hide Header, PrintEntry, PrintEntries, Printable;
    output := [];
    PrintedPrefix(entries, 0);
    NothingPrinted(entries);
    for i := 0 to |entries|
      invariant forall e <- entries[..i] :: Printable(e)
      invariant output == PrintEntries(entries[..i]) && |output| % BLOCK == 0
    {
      PrintedNext(entries, i);
      PrintedSize(entries[i], output);
      output := output + Header(entries[i]);
      output := output + entries[i].bytes;
      var rounded := (|output| + BLOCK - 1) / BLOCK * BLOCK;
      output := output + Zeros(rounded - |output|);
    }
    assert entries[..|entries|] == entries;
    output := output + Zeros(2 * BLOCK);
  }

  lemma NothingPrinted(entries: seq<TarEntry>)
    ensures entries[..0] == [] && PrintEntries([]) == []
  {}

  lemma PrintedSize(e: TarEntry, output: Bytes)
    requires Printable(e) && |output| % BLOCK == 0
    ensures var n := |output| + BLOCK + |e.bytes|;
      var rounded := (n + BLOCK - 1) / BLOCK * BLOCK;
      && rounded >= n && rounded - n == Padding(|e.bytes|)
      && output + Header(e) + e.bytes + Zeros(rounded - n) == output + PrintEntry(e)
      && (|output| + |PrintEntry(e)|) % BLOCK == 0
  {
    hide Header, Zeros, Printable;
    RoundUp(|output| / BLOCK, |e.bytes|);
    assert output + Header(e) + e.bytes + Zeros(Padding(|e.bytes|)) == output + (Header(e) + e.bytes + Zeros(Padding(|e.bytes|)));
  }

  lemma RoundUp(k: nat, size: nat)
    ensures var n := BLOCK * k + BLOCK + size;
      (n + BLOCK - 1) / BLOCK * BLOCK == n + Padding(size) && (n + Padding(size)) % BLOCK == 0
  {}

  // ----- The fields of a printed header

  lemma Fields(b: Bytes, name: Bytes, mode: Bytes, user: Bytes, group: Bytes, size: Bytes, time: Bytes)
    requires b == name + mode + user + group + size + time
    requires |name| == 100 && |mode| == 8 && |user| == 8 && |group| == 8 && |size| == 12 && |time| == 12
    ensures b[..100] == name && b[100..108] == mode && b[108..116] == user
    ensures b[116..124] == group && b[124..136] == size && b[136..148] == time
  {
    var (x, y, z) := (name + mode, name + mode + user, name + mode + user + group);
    assert b[..136] == z + size && b[136..148] == time;
    assert b[..136][..124] == z && b[..136][124..136] == size;
    assert b[..124] == y + group;
    assert b[..124][..116] == y && b[..124][116..124] == group;
    assert b[..116] == x + user;
    assert b[..116][..108] == x && b[..116][108..116] == user;
    assert b[..108] == name + mode;
  }

  lemma FrontFields(e: TarEntry)
    requires Printable(e)
    ensures var b := Front(e);
      && b[..100] == Padded(e.path) && b[100..108] == Number(FILE_MODE, 7) && b[108..116] == Number(0, 7)
      && b[116..124] == Number(0, 7) && b[124..136] == Number(|e.bytes|, 11) && b[136..148] == Number(0, 11)
  {
    hide OctalDigits, Padded, IsName;
    Fields(Front(e), Padded(e.path), Number(FILE_MODE, 7), Number(0, 7), Number(0, 7), Number(|e.bytes|, 11), Number(0, 11));
  }

  lemma BackFields(e: TarEntry)
    requires Printable(e)
    ensures var b := Back(e);
      b[0] == e.kind && b[1..101] == Padded(e.target) && b[101] == 0x75 && forall i | 109 <= i < 356 :: b[i] == 0
  {
    hide Padded, IsName;
    var b := Back(e);
    assert b[1..101] == Padded(e.target);
    assert b[101] == MAGIC[0];
    forall i | 109 <= i < 356 ensures b[i] == 0 {
      assert b[i] == Zeros(247)[i - 109];
    }
  }

  lemma HeaderParts(e: TarEntry)
    requires Printable(e)
    ensures var h := Header(e);
      && h[..148] == Front(e) && h[148..156] == ChecksumField(Checksum(e)) && h[156..] == Back(e)
  {
    hide Front, Back, Checksum, ChecksumField, Printable;
  }

  lemma SliceOfFront(h: Bytes, i: nat, j: nat)
    requires |h| == BLOCK && i <= j <= 148
    ensures h[i..j] == h[..148][i..j]
  {}

  lemma BackIsZero(e: TarEntry, i: nat, j: nat)
    requires Printable(e) && 265 <= i <= j <= BLOCK
    ensures AllZero(Header(e)[i..j])
  {
    hide Back, Header, Printable;
    var h := Header(e);
    HeaderParts(e);
    BackFields(e);
    forall k | i <= k < j ensures h[k] == 0 {
      assert h[k] == h[156..][k - 156];
    }
  }

  lemma Powers()
    ensures Pow8(6) == 0x40000 && Pow8(7) == 0x200000 && Pow8(11) == 0x2_0000_0000
  {
    assert Pow8(3) == 512;
    assert Pow8(6) == 0x40000;
    assert Pow8(9) == 0x8000000;
  }

  lemma NumberIsRead(value: nat, width: nat)
    requires 0 < width && value < Pow8(width) && value <= U64_MAX
    ensures ParseTarNumber(Number(value, width)) == Some(value)
  {
    NumberOfDigits(value, width, [0]);
  }

  lemma ZerosAreRead(field: Bytes)
    requires AllZero(field)
    ensures ParseTarNumber(field) == Some(0)
  {}

  lemma ChecksumIsValid(e: TarEntry)
    requires Printable(e)
    ensures ValidTarChecksum(Header(e))
  {
    hide Front, Back, Header, Printable;
    HeaderParts(e);
    SumBytesBound(Front(e));
    SumBytesBound(Back(e));
    Powers();
    NumberOfDigits(Checksum(e), 6, [0, SPACE]);
  }

  /** The number fields: read back, and in octal, which the oldest pax policy refuses in the owner fields. */
  lemma NumbersAreRead(e: TarEntry, policy: ArchivePolicy)
    requires Printable(e)
    ensures var h := Header(e);
      && ParseTarNumber(h[100..108]) == Some(FILE_MODE) && DataSize(h) == Some(|e.bytes|)
      && (NumericHeaderOk(h, policy) <==> !policy.LegacyNodeTarNpm?)
  {
    var h := Header(e);
    Powers();
    assert |e.bytes| < Pow8(11);
    hide Header, Front, ParseTarNumber, Back, OctalDigits, Printable;
    HeaderParts(e);
    FrontFields(e);
    SliceOfFront(h, 100, 108);
    SliceOfFront(h, 108, 116);
    SliceOfFront(h, 116, 124);
    SliceOfFront(h, 124, 136);
    SliceOfFront(h, 136, 148);
    NumberIsRead(FILE_MODE, 7);
    NumberIsRead(0, 7);
    NumberIsRead(|e.bytes|, 11);
    NumberIsRead(0, 11);
    BackIsZero(e, 329, 337);
    BackIsZero(e, 337, 345);
    ZerosAreRead(h[329..337]);
    ZerosAreRead(h[337..345]);
    OwnerIsOctal(h);
  }

  lemma OwnerIsOctal(h: Bytes)
    requires |h| == BLOCK && h[108..116] == Number(0, 7)
    ensures h[108] < 0x80
  {
    assert h[108] == h[108..116][0];
    assert IsOctalDigit(OctalDigits(0, 7)[0]);
  }

  lemma {:induction false} FirstNulAfter(text: Bytes, zeros: Bytes)
    requires AllZero(zeros) && forall i | 0 <= i < |text| :: text[i] != 0
    ensures FirstNul(text + zeros) == |text|
  {
    if text == [] {
      assert text + zeros == zeros;
    } else {
      assert (text + zeros)[1..] == text[1..] + zeros;
      FirstNulAfter(text[1..], zeros);
    }
  }

  lemma NameIsRead(name: string)
    requires IsName(name) && |name| <= NAME_BYTES
    ensures TarString(Padded(name)) == Some(name)
  {
    hide ValidUtf8;
    var (text, field) := (AsBytes(name), Padded(name));
    forall i | 0 <= i < |text| ensures text[i] != 0 {
      assert name[i] in name;
    }
    FirstNulAfter(text, Zeros(NAME_BYTES - |name|));
    assert field[..|text|] == text && field[|text|..] == Zeros(NAME_BYTES - |name|);
    assert AsText(text) == name;
  }

  /** The path is read back; the old star policy looks for times a ustar header does not carry. */
  lemma PathIsRead(e: TarEntry)
    requires Printable(e)
    ensures TarPath(Header(e)) == (if e.path == "" then None else Some(e.path)) && LegacyStarTimes(Header(e)).None?
  {
    var h := Header(e);
    hide Header, Front, Back;
    HeaderParts(e);
    FrontFields(e);
    SliceOfFront(h, 0, 100);
    assert h[..100] == h[0..100] && Front(e)[0..100] == Front(e)[..100];
    NameIsRead(e.path);
    BackIsZero(e, 345, 500);
    EmptyIsRead(h[345..500]);
    BackIsZero(e, 488, 500);
    assert h[488..500][0] == 0 && COMMON_TIME[0] != 0;
  }

  lemma EmptyIsRead(field: Bytes)
    requires AllZero(field)
    ensures TarString(field) == Some("")
  {
    assert FirstNul(field) == 0;
    assert field[..0] == [];
  }

  /** The header of a member with a long name repeats the first hundred bytes of it, and nothing else will do. */
  lemma LongNameIsRepeated(e: TarEntry, name: string)
    requires Printable(e) && IsName(name)
    ensures LongNameHeaderOk(Header(e), name) <==> |name| > 100 && e.path == name[..100]
  {
    var h := Header(e);
    hide Header, Front, Back, ValidUtf8;
    HeaderParts(e);
    FrontFields(e);
    SliceOfFront(h, 0, 100);
    assert h[..100] == h[0..100] && Front(e)[0..100] == Front(e)[..100];
    BackIsZero(e, 345, 500);
    if |name| > 100 { RepeatedName(e.path, name); }
  }

  lemma RepeatedName(path: string, name: string)
    requires IsName(path) && |path| <= NAME_BYTES && IsName(name) && |name| > 100
    ensures ValidUtf8(AsBytes(name)[..100]) && Padded(path) == AsBytes(name)[..100] <==> path == name[..100]
  {
    hide ValidUtf8;
    var (field, text) := (Padded(path), AsBytes(name)[..100]);
    forall i | 0 <= i < 100 ensures text[i] != 0 { assert name[i] in name; }
    forall i | |path| <= i < 100 ensures field[i] == 0 { assert field[i] == Zeros(NAME_BYTES - |path|)[i - |path|]; }
    if |path| < 100 { assert field[|path|] != text[|path|]; }
    if field == text {
      assert forall i | 0 <= i < |path| :: field[i] == AsBytes(path)[i];
      forall i | 0 <= i < |path| ensures path[i] == name[i] { assert text[i] == AsBytes(name)[i] && path[i] in path && name[i] in name; }
      assert path == name[..100];
    }
    if path == name[..100] {
      assert AsBytes(path) == text && field == text;
    }
  }

  lemma LinkIsRead(e: TarEntry)
    requires Printable(e)
    ensures TarString(Header(e)[157..257]) == Some(e.target)
  {
    hide Header, Front, Back, Padded;
    var h := Header(e);
    HeaderParts(e);
    BackFields(e);
    assert h[157..257] == h[156..][1..101];
    NameIsRead(e.target);
  }

  lemma HeaderIsNotZero(e: TarEntry)
    requires Printable(e)
    ensures !AllZero(Header(e)) && Header(e)[156] == e.kind
  {
    var h := Header(e);
    hide Header, Front, Back, Printable;
    HeaderParts(e);
    BackFields(e);
    assert h[156] == h[156..][0] && h[257] == h[156..][101];
  }
}
