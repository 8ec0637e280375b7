/** Bundle inventories: what admission checks, and why an accepted signed release holds exactly the manifest's
    assets and the three reserved outputs. Strings stand for their bytes, one character a byte. */
module Inventory {
  import opened Wrappers
  import opened Text

  const MAX_BUNDLE_ENTRIES: nat := 32768
  const MAX_BUNDLE_PATH_BYTES: nat := 512
  const MAX_BUNDLE_ASSET_NAME_BYTES: nat := 255
  const MAX_BUNDLE_OBJECT_BYTES: nat := 8 * 1024 * 1024 * 1024
  const MAX_BUNDLE_TOTAL_BYTES: nat := 64 * 1024 * 1024 * 1024
  const U64_MAX: nat := 0xffff_ffff_ffff_ffff
  const BUNDLE_SCHEMA_VERSION: nat := 1

  const VERIFIED_INPUT_RECORD_NAME: string := "verified-input-bundle-v1.json"
  const CATALOG_ENVELOPE_NAME: string := "catalog-v1.json"
  const RELEASE_CHECKSUMS_NAME: string := "checksums-sha256.txt"
  const RELEASE_MANIFEST_NAME: string := "signed-release-bundle-manifest-v1.json"

  datatype BundleKind = VerifiedInput | SignedRelease
  datatype BundleEntry = BundleEntry(relativePath: string, size: nat, sha256: string)
  datatype BundleInventory = BundleInventory(schemaVersion: nat, kind: BundleKind, entries: seq<BundleEntry>)
  datatype ReleaseAsset = ReleaseAsset(name: string, size: nat, sha256: string)
  datatype ReleaseManifest = ReleaseManifest(schemaVersion: nat, catalogEnvelope: ReleaseAsset, assets: seq<ReleaseAsset>)

  // ----- Names and sizes

  predicate ValidRelativePath(s: string, maximum: nat) {
    && s != "" && |s| <= maximum && !StartsWith(s, "/")
    && (forall c <- s :: c != '\\' && !IsControl(c))
    && (forall part <- Split(s, "/") :: part != "" && part != "." && part != "..")
  }

  predicate ValidReleaseAssetName(s: string) {
    && s != "" && |s| <= MAX_BUNDLE_ASSET_NAME_BYTES && s != "." && s != ".."
    && (forall c <- s :: c < 128 as char && c != '/' && c != '\\' && !IsControl(c) && c != ' ')
  }

  predicate IsSha256Hex(s: string) {
    |s| == 64 && forall c <- s :: '0' <= c <= '9' || 'a' <= c <= 'f'
  }

  /** A relative path leads straight down from wherever it is read, one level a part, through printable characters. */
  lemma RelativePathMeans(s: string, maximum: nat, at: seq<string>)
    ensures ValidRelativePath(s, maximum) <==>
      && 0 < |s| <= maximum && s[0] != '/' && (forall c <- s :: c as int >= 32 && c as int != 127 && c != '\\')
      && Walk(at, Split(s, "/")) == Some(at + Split(s, "/"))
  {
    hide Walk, Split;
    PlainPartsLeadDown(at, Split(s, "/"));
    if s != [] { assert StartsWith(s, "/") <==> s[0] == '/'; }
  }

  lemma AssetNameMeans(s: string)
    ensures ValidReleaseAssetName(s) <==>
      && 0 < |s| <= 255 && s !in {".", ".."} && forall c <- s :: 33 <= c as int <= 126 && c !in {'/', '\\'}
  {}

  lemma DigestMeans(s: string)
    ensures IsSha256Hex(s) <==> |s| == 64 && Of(s, "0123456789abcdef")
  {
    forall c: char ensures c in "0123456789abcdef" <==> '0' <= c <= '9' || 'a' <= c <= 'f' { HexCharacter(c); }
  }

  lemma HexCharacter(c: char)
    ensures c in "0123456789abcdef" <==> '0' <= c <= '9' || 'a' <= c <= 'f'
  {
    var (digits, letters) := ("0123456789", "abcdef");
    assert "0123456789abcdef" == digits + letters;
    if '0' <= c <= '9' { assert digits[c as int - '0' as int] == c; }
    if 'a' <= c <= 'f' { assert letters[c as int - 'a' as int] == c; }
  }

  predicate ValidSize(size: nat) { 0 < size <= MAX_BUNDLE_OBJECT_BYTES }

  function Sum(sizes: seq<nat>): nat {
    if sizes == [] then 0 else sizes[0] + Sum(sizes[1..])
  }

  lemma {:induction false} SumAppend(a: seq<nat>, b: seq<nat>)
    ensures Sum(a + b) == Sum(a) + Sum(b)
  {
    if a == [] {
      assert a + b == b;
    } else {
      assert (a + b)[1..] == a[1..] + b;
      SumAppend(a[1..], b);
    }
  }

  lemma SumGrows(sizes: seq<nat>, i: nat)
    requires i < |sizes|
    ensures Sum(sizes[..i + 1]) == Sum(sizes[..i]) + sizes[i] <= Sum(sizes)
  {
    SumAppend(sizes[..i], [sizes[i]]);
    assert sizes[..i] + [sizes[i]] == sizes[..i + 1];
    SumAppend(sizes[..i + 1], sizes[i + 1..]);
    assert sizes[..i + 1] + sizes[i + 1..] == sizes;
  }

  /** Adds 64-bit sizes with a checked add and stops at the first total over the bound. */
  method RequireBoundedTotal(sizes: seq<nat>) returns (ok: bool)
    ensures ok <==> Sum(sizes) <= MAX_BUNDLE_TOTAL_BYTES
  {
    var total := 0;
    for i := 0 to |sizes|
      invariant total == Sum(sizes[..i]) <= MAX_BUNDLE_TOTAL_BYTES
    {
      SumGrows(sizes, i);
      if total + sizes[i] > U64_MAX { return false; }
      total := total + sizes[i];
      if total > MAX_BUNDLE_TOTAL_BYTES { return false; }
    }
    assert sizes[..|sizes|] == sizes;
    return true;
  }

  // ----- Sorted lists and lookup

  function Paths(entries: seq<BundleEntry>): (paths: seq<string>)
    ensures |paths| == |entries| && forall i | 0 <= i < |entries| :: paths[i] == entries[i].relativePath
  {
    seq(|entries|, i requires 0 <= i < |entries| => entries[i].relativePath)
  }

  function Names(assets: seq<ReleaseAsset>): (names: seq<string>)
    ensures |names| == |assets| && forall i | 0 <= i < |assets| :: names[i] == assets[i].name
  {
    seq(|assets|, i requires 0 <= i < |assets| => assets[i].name)
  }

  /** Every name is below every later one. */
  predicate Ascending(names: seq<string>) {
    forall i, j {:trigger Less(names[i], names[j])} | 0 <= i < j < |names| :: Less(names[i], names[j])
  }

  predicate NeighboursAscend(names: seq<string>) {
    forall i | 0 <= i < |names| - 1 :: Less(names[i], names[i + 1])
  }

  /** Comparing neighbours is enough. */
  lemma NeighboursSuffice(names: seq<string>)
    ensures NeighboursAscend(names) <==> Ascending(names)
  {
    if NeighboursAscend(names) {
      forall i, j | 0 <= i < j < |names| ensures Less(names[i], names[j]) {
        AscendBetween(names, i, j);
      }
    }
  }

  lemma {:induction false} AscendBetween(names: seq<string>, i: nat, j: nat)
    requires NeighboursAscend(names) && i < j < |names|
    ensures Less(names[i], names[j])
    decreases j
  {
    if i + 1 < j {
      AscendBetween(names, i, j - 1);
      assert Less(names[j - 1], names[j - 1 + 1]);
      LessTransitive(names[i], names[j - 1], names[j]);
    } else {
      assert Less(names[i], names[i + 1]);
    }
  }

  lemma LessIsStrict(a: string, b: string)
    requires Less(a, b)
    ensures a != b && !Less(b, a)
  {
    CompareZero(a, b);
    CompareFlips(a, b);
  }

  lemma AscendingIsInjective(names: seq<string>, i: nat, j: nat)
    requires Ascending(names) && i < |names| && j < |names| && names[i] == names[j]
    ensures i == j
  {
    if i < j { LessIsStrict(names[i], names[j]); }
    if j < i { LessIsStrict(names[j], names[i]); }
  }

  /** Binary search by path. */
  method FindEntry(entries: seq<BundleEntry>, name: string) returns (r: Option<BundleEntry>)
    requires Ascending(Paths(entries))
    ensures r.Some? ==> r.value in entries && r.value.relativePath == name
    ensures r.None? ==> name !in Paths(entries)
  {
    var (low, high) := (0, |entries|);
    var paths := Paths(entries);
    while low < high
      invariant 0 <= low <= high <= |entries|
      invariant forall i | 0 <= i < low :: Less(paths[i], name)
      invariant forall i | high <= i < |entries| :: Less(name, paths[i])
    {
      var mid := low + (high - low) / 2;
      var order := Compare(entries[mid].relativePath, name);
      CompareFlips(paths[mid], name);
      if order == 0 {
        CompareZero(entries[mid].relativePath, name);
        return Some(entries[mid]);
      } else if order < 0 {
        forall i | 0 <= i < mid ensures Less(paths[i], name) {
          LessTransitive(paths[i], paths[mid], name);
        }
        low := mid + 1;
      } else {
        forall i | mid < i < |entries| ensures Less(name, paths[i]) {
          LessTransitive(name, paths[mid], paths[i]);
        }
        high := mid;
      }
    }
    forall i | 0 <= i < |paths| ensures paths[i] != name {
      if i < low { LessIsStrict(paths[i], name); } else { LessIsStrict(name, paths[i]); }
    }
    return None;
  }

  // ----- Admission

  predicate ValidEntry(e: BundleEntry) {
    ValidSize(e.size) && ValidRelativePath(e.relativePath, MAX_BUNDLE_PATH_BYTES) && IsSha256Hex(e.sha256)
  }

  predicate ValidAsset(a: ReleaseAsset) {
    ValidSize(a.size) && ValidReleaseAssetName(a.name) && IsSha256Hex(a.sha256)
  }

  function EntrySizes(entries: seq<BundleEntry>): seq<nat> {
    seq(|entries|, i requires 0 <= i < |entries| => entries[i].size)
  }

  function AssetSizes(assets: seq<ReleaseAsset>): seq<nat> {
    seq(|assets|, i requires 0 <= i < |assets| => assets[i].size)
  }

  /** Which paths each kind of bundle must hold, and which it may hold. */
  predicate KindObjects(kind: BundleKind, entries: seq<BundleEntry>) {
    match kind
    case VerifiedInput =>
      && VERIFIED_INPUT_RECORD_NAME in Paths(entries)
      && forall e <- entries :: e.relativePath == VERIFIED_INPUT_RECORD_NAME || e.relativePath == "objects/" + e.sha256
    case SignedRelease =>
      && CATALOG_ENVELOPE_NAME in Paths(entries) && RELEASE_CHECKSUMS_NAME in Paths(entries) && RELEASE_MANIFEST_NAME in Paths(entries)
      && forall e <- entries :: e.relativePath != VERIFIED_INPUT_RECORD_NAME && ValidReleaseAssetName(e.relativePath)
  }

  /** What an inventory is once it has been admitted. */
  predicate ValidInventory(inventory: BundleInventory) {
    && inventory.schemaVersion == BUNDLE_SCHEMA_VERSION
    && 0 < |inventory.entries| <= MAX_BUNDLE_ENTRIES
    && (forall e <- inventory.entries :: ValidEntry(e))
    && Ascending(Paths(inventory.entries))
    && Sum(EntrySizes(inventory.entries)) <= MAX_BUNDLE_TOTAL_BYTES
    && KindObjects(inventory.kind, inventory.entries)
  }

  predicate IsReserved(name: string) {
    name == VERIFIED_INPUT_RECORD_NAME || name == CATALOG_ENVELOPE_NAME || name == RELEASE_CHECKSUMS_NAME
    || name == RELEASE_MANIFEST_NAME
  }

  /** What a release manifest is once it has been admitted. */
  predicate ValidManifest(manifest: ReleaseManifest) {
    && manifest.schemaVersion == BUNDLE_SCHEMA_VERSION
    && 0 < |manifest.assets| <= MAX_BUNDLE_ENTRIES
    && ValidAsset(manifest.catalogEnvelope) && manifest.catalogEnvelope.name == CATALOG_ENVELOPE_NAME
    && (forall a <- manifest.assets :: ValidAsset(a) && !IsReserved(a.name))
    && Ascending(Names(manifest.assets))
    && manifest.catalogEnvelope.size + Sum(AssetSizes(manifest.assets)) <= MAX_BUNDLE_TOTAL_BYTES
  }

  // What admission demands, in numbers and names.

  lemma AdmittedInventory(inventory: BundleInventory)
    ensures ValidInventory(inventory) <==>
      && inventory.schemaVersion == 1 && 0 < |inventory.entries| <= 32768
      && (forall e <- inventory.entries ::
            0 < e.size <= 8589934592 && ValidRelativePath(e.relativePath, 512) && IsSha256Hex(e.sha256))
      && Ascending(Paths(inventory.entries)) && Sum(EntrySizes(inventory.entries)) <= 68719476736
      && KindObjects(inventory.kind, inventory.entries)
  {
    hide Ascending, Sum, KindObjects, ValidRelativePath, IsSha256Hex;
  }

  lemma ObjectsOfAKind(entries: seq<BundleEntry>)
    ensures KindObjects(VerifiedInput, entries) <==>
      && "verified-input-bundle-v1.json" in Paths(entries)
      && forall e <- entries :: e.relativePath in {"verified-input-bundle-v1.json", "objects/" + e.sha256}
    ensures KindObjects(SignedRelease, entries) <==>
      && "catalog-v1.json" in Paths(entries) && "checksums-sha256.txt" in Paths(entries)
      && "signed-release-bundle-manifest-v1.json" in Paths(entries)
      && forall e <- entries :: e.relativePath != "verified-input-bundle-v1.json" && ValidReleaseAssetName(e.relativePath)
  {
    hide ValidReleaseAssetName;
  }

  lemma AdmittedManifest(manifest: ReleaseManifest)
    ensures ValidManifest(manifest) <==>
      && manifest.schemaVersion == 1 && 0 < |manifest.assets| <= 32768
      && manifest.catalogEnvelope.name == "catalog-v1.json" && 0 < manifest.catalogEnvelope.size <= 8589934592
      && IsSha256Hex(manifest.catalogEnvelope.sha256)
      && (forall a <- manifest.assets ::
            && 0 < a.size <= 8589934592 && ValidReleaseAssetName(a.name) && IsSha256Hex(a.sha256)
            && a.name !in {"verified-input-bundle-v1.json", "catalog-v1.json", "checksums-sha256.txt",
                           "signed-release-bundle-manifest-v1.json"})
      && Ascending(Names(manifest.assets))
      && manifest.catalogEnvelope.size + Sum(AssetSizes(manifest.assets)) <= 68719476736
  {
    CatalogNameIsAName();
    hide Ascending, Sum, ValidReleaseAssetName, IsSha256Hex;
  }

  lemma CatalogNameIsAName()
    ensures ValidReleaseAssetName("catalog-v1.json")
  {}

  method RequireStrictlySortedPaths(entries: seq<BundleEntry>) returns (ok: bool)
    ensures ok <==> Ascending(Paths(entries))
  {
    NeighboursSuffice(Paths(entries));
    var paths := Paths(entries);
    for i := 0 to |entries|
      invariant forall k | 0 <= k < i - 1 :: Less(paths[k], paths[k + 1])
    {
      if i > 0 && !Less(entries[i - 1].relativePath, entries[i].relativePath) {
        assert !Less(paths[i - 1], paths[i - 1 + 1]);
        return false;
      }
    }
    return true;
  }

  method RequireKindObjects(kind: BundleKind, entries: seq<BundleEntry>) returns (ok: bool)
    requires Ascending(Paths(entries))
    ensures ok <==> KindObjects(kind, entries)
  {
    match kind
    case VerifiedInput =>
      var record := FindEntry(entries, VERIFIED_INPUT_RECORD_NAME);
      return record.Some?
          && forall e <- entries :: e.relativePath == VERIFIED_INPUT_RECORD_NAME || e.relativePath == "objects/" + e.sha256;
    case SignedRelease =>
      var catalog := FindEntry(entries, CATALOG_ENVELOPE_NAME);
      var checksums := FindEntry(entries, RELEASE_CHECKSUMS_NAME);
      var manifest := FindEntry(entries, RELEASE_MANIFEST_NAME);
      return catalog.Some? && checksums.Some? && manifest.Some?
          && forall e <- entries :: e.relativePath != VERIFIED_INPUT_RECORD_NAME && ValidReleaseAssetName(e.relativePath);
  }

  /** Admission of decoded inventory fields. */
  method AdmitInventory(schemaVersion: nat, kind: BundleKind, entries: seq<BundleEntry>) returns (r: Option<BundleInventory>)
    ensures r == if ValidInventory(BundleInventory(schemaVersion, kind, entries))
                 then Some(BundleInventory(schemaVersion, kind, entries)) else None
  {
    if schemaVersion != BUNDLE_SCHEMA_VERSION || entries == [] || |entries| > MAX_BUNDLE_ENTRIES { return None; }
    if !(forall e <- entries :: ValidEntry(e)) { return None; }
    var sorted := RequireStrictlySortedPaths(entries);
    if !sorted { return None; }
    var bounded := RequireBoundedTotal(EntrySizes(entries));
    if !bounded { return None; }
    var objects := RequireKindObjects(kind, entries);
    if !objects { return None; }
    return Some(BundleInventory(schemaVersion, kind, entries));
  }

  method RequireStrictlySortedNames(assets: seq<ReleaseAsset>) returns (ok: bool)
    ensures ok <==> Ascending(Names(assets))
  {
    NeighboursSuffice(Names(assets));
    var names := Names(assets);
    for i := 0 to |assets|
      invariant forall k | 0 <= k < i - 1 :: Less(names[k], names[k + 1])
    {
      if i > 0 && !Less(assets[i - 1].name, assets[i].name) {
        assert !Less(names[i - 1], names[i - 1 + 1]);
        return false;
      }
    }
    return true;
  }

  /** Admission of decoded manifest fields. */
  method AdmitManifest(schemaVersion: nat, catalogEnvelope: ReleaseAsset, assets: seq<ReleaseAsset>)
    returns (r: Option<ReleaseManifest>)
    ensures r == if ValidManifest(ReleaseManifest(schemaVersion, catalogEnvelope, assets))
                 then Some(ReleaseManifest(schemaVersion, catalogEnvelope, assets)) else None
  {
    hide ValidAsset, IsReserved, Ascending;
    if schemaVersion != BUNDLE_SCHEMA_VERSION || assets == [] || |assets| > MAX_BUNDLE_ENTRIES { return None; }
    if !ValidAsset(catalogEnvelope) || catalogEnvelope.name != CATALOG_ENVELOPE_NAME { return None; }
    if !(forall a <- assets :: ValidAsset(a)) { return None; }
    var sorted := RequireStrictlySortedNames(assets);
    if !sorted { return None; }
    if exists a <- assets :: IsReserved(a.name) { return None; }
    var sizes := AssetSizes(assets);
    SumAppend([catalogEnvelope.size], sizes);
    var bounded := RequireBoundedTotal([catalogEnvelope.size] + sizes);
    if !bounded { return None; }
    return Some(ReleaseManifest(schemaVersion, catalogEnvelope, assets));
  }

  // ----- The signed release

  /** The inventory's paths are the manifest's asset names and the three reserved outputs, and every entry but
      the checksums and the manifest itself has the size and digest the manifest signs for it. */
  ghost predicate ExactlyTheRelease(inventory: BundleInventory, manifest: ReleaseManifest) {
    && inventory.kind == SignedRelease
    && PathSet(inventory) == NameSet(manifest) + Outputs()
    && (forall e, a | e in inventory.entries && a in Signed(manifest) && e.relativePath == a.name ::
          e.size == a.size && e.sha256 == a.sha256)
  }

  ghost function PathSet(inventory: BundleInventory): set<string> { set p | p in Paths(inventory.entries) }

  ghost function NameSet(manifest: ReleaseManifest): set<string> { set n | n in Names(manifest.assets) }

  ghost function Outputs(): set<string> {
    {"catalog-v1.json", "checksums-sha256.txt", "signed-release-bundle-manifest-v1.json"}
  }

  /** What the manifest signs. */
  function Signed(manifest: ReleaseManifest): seq<ReleaseAsset> { manifest.assets + [manifest.catalogEnvelope] }

  ghost predicate Matched(entries: seq<BundleEntry>, a: ReleaseAsset) {
    exists e :: e in entries && e.relativePath == a.name && e.size == a.size && e.sha256 == a.sha256
  }

  ghost predicate AllMatched(inventory: BundleInventory, manifest: ReleaseManifest) {
    forall a <- Signed(manifest) :: Matched(inventory.entries, a)
  }

  /** The loop's view of the same lookups. */
  lemma AllMatchedOneByOne(inventory: BundleInventory, manifest: ReleaseManifest)
    ensures AllMatched(inventory, manifest) <==>
      && Matched(inventory.entries, manifest.catalogEnvelope)
      && forall k | 0 <= k < |manifest.assets| :: Matched(inventory.entries, manifest.assets[k])
  {
    hide Matched;
    var all := Signed(manifest);
    assert all[|manifest.assets|] == manifest.catalogEnvelope;
    assert forall k | 0 <= k < |manifest.assets| :: all[k] == manifest.assets[k];
  }

  lemma {:induction false} DistinctCount(names: seq<string>)
    requires Ascending(names)
    ensures |set n | n in names| == |names|
  {
    var all := set n | n in names;
    if names == [] {
      assert all == {};
    } else {
      var (first, rest) := (names[0], names[1..]);
      DistinctCount(rest);
      var others := set n | n in rest;
      assert first !in others by {
        if first in rest {
          var k :| 0 <= k < |rest| && rest[k] == first;
          AscendingIsInjective(names, 0, k + 1);
          assert false;
        }
      }
      assert all == {first} + others;
    }
  }

  lemma ReservedAreThree()
    ensures |Outputs()| == 3
  {
    assert |CATALOG_ENVELOPE_NAME| == 15 && |RELEASE_CHECKSUMS_NAME| == 20 && |RELEASE_MANIFEST_NAME| == 38;
    assert |{CATALOG_ENVELOPE_NAME, RELEASE_CHECKSUMS_NAME}| == 2;
    assert Outputs() == {CATALOG_ENVELOPE_NAME, RELEASE_CHECKSUMS_NAME} + {RELEASE_MANIFEST_NAME};
  }

  lemma NamesCount(manifest: ReleaseManifest)
    requires ValidManifest(manifest)
    ensures |NameSet(manifest) + Outputs()| == |manifest.assets| + 3
  {
    DistinctCount(Names(manifest.assets));
    ReservedAreThree();
    assert NameSet(manifest) !! Outputs();
  }

  lemma SubsetOfSameSize(a: set<string>, b: set<string>)
    requires a <= b && |a| == |b|
    ensures a == b
  {
    assert b == a + (b - a);
  }

  lemma EntryWithPath(entries: seq<BundleEntry>, e: BundleEntry, f: BundleEntry)
    requires Ascending(Paths(entries)) && e in entries && f in entries && e.relativePath == f.relativePath
    ensures e == f
  {
    var i :| 0 <= i < |entries| && entries[i] == e;
    var j :| 0 <= j < |entries| && entries[j] == f;
    AscendingIsInjective(Paths(entries), i, j);
  }

  /** The counting argument. */
  lemma MatchingIsExact(inventory: BundleInventory, manifest: ReleaseManifest)
    requires ValidInventory(inventory) && ValidManifest(manifest)
    ensures ExactlyTheRelease(inventory, manifest) <==>
      && inventory.kind == SignedRelease
      && |inventory.entries| == |manifest.assets| + 3
      && AllMatched(inventory, manifest)
  {
    hide ValidEntry, ValidAsset, Sum;
    NamesCount(manifest);
    DistinctCount(Paths(inventory.entries));
    var names := NameSet(manifest) + Outputs();
    if ExactlyTheRelease(inventory, manifest) {
      forall a <- Signed(manifest) ensures Matched(inventory.entries, a) {
        assert a.name in names;
        var i :| 0 <= i < |inventory.entries| && Paths(inventory.entries)[i] == a.name;
        assert inventory.entries[i] in inventory.entries;
      }
    }
    if inventory.kind == SignedRelease && |inventory.entries| == |manifest.assets| + 3
       && AllMatched(inventory, manifest) {
      assert names <= PathSet(inventory) by {
        forall n <- NameSet(manifest) ensures n in Paths(inventory.entries) {
          var k :| 0 <= k < |manifest.assets| && Names(manifest.assets)[k] == n;
          assert manifest.assets[k] in Signed(manifest);
          AMatchHasPath(inventory.entries, manifest.assets[k]);
        }
      }
      SubsetOfSameSize(names, PathSet(inventory));
      forall e, a | e in inventory.entries && a in Signed(manifest) && e.relativePath == a.name
        ensures e.size == a.size && e.sha256 == a.sha256
      {
        var f :| f in inventory.entries && f.relativePath == a.name && f.size == a.size && f.sha256 == a.sha256;
        EntryWithPath(inventory.entries, e, f);
      }
    }
  }

  lemma AMatchHasPath(entries: seq<BundleEntry>, a: ReleaseAsset)
    requires Matched(entries, a)
    ensures a.name in Paths(entries)
  {
    var e :| e in entries && e.relativePath == a.name;
    var i :| 0 <= i < |entries| && entries[i] == e;
    assert Paths(entries)[i] == a.name;
  }

  lemma LookupDecides(entries: seq<BundleEntry>, a: ReleaseAsset, e: Option<BundleEntry>)
    requires Ascending(Paths(entries))
    requires e.Some? ==> e.value in entries && e.value.relativePath == a.name
    requires e.None? ==> a.name !in Paths(entries)
    ensures Matched(entries, a) <==> e.Some? && e.value.size == a.size && e.value.sha256 == a.sha256
  {
    if Matched(entries, a) {
      AMatchHasPath(entries, a);
      var f :| f in entries && f.relativePath == a.name && f.size == a.size && f.sha256 == a.sha256;
      EntryWithPath(entries, f, e.value);
    }
  }

  method VerifySignedReleaseInventory(inventory: BundleInventory, manifest: ReleaseManifest) returns (ok: bool)
    requires ValidInventory(inventory) && ValidManifest(manifest)
    ensures ok <==> ExactlyTheRelease(inventory, manifest)
  {
    hide *;
    MatchingIsExact(inventory, manifest);
    AllMatchedOneByOne(inventory, manifest);
    AdmittedIsSorted(inventory, manifest);
    if inventory.kind != SignedRelease { return false; }
    if inventory.schemaVersion != BUNDLE_SCHEMA_VERSION { return false; }
    if |inventory.entries| != |manifest.assets| + 3 { return false; }
    var catalog := FindEntry(inventory.entries, CATALOG_ENVELOPE_NAME);
    LookupDecides(inventory.entries, manifest.catalogEnvelope, catalog);
    if catalog.None? { return false; }
    if catalog.value.size != manifest.catalogEnvelope.size { return false; }
    if catalog.value.sha256 != manifest.catalogEnvelope.sha256 { return false; }
    for i := 0 to |manifest.assets|
      invariant forall k | 0 <= k < i :: Matched(inventory.entries, manifest.assets[k])
    {
      var asset := manifest.assets[i];
      var e := FindEntry(inventory.entries, asset.name);
      LookupDecides(inventory.entries, asset, e);
      if e.None? || e.value.size != asset.size || e.value.sha256 != asset.sha256 { return false; }
    }
    return true;
  }

  lemma AdmittedIsSorted(inventory: BundleInventory, manifest: ReleaseManifest)
    requires ValidInventory(inventory) && ValidManifest(manifest)
    ensures Ascending(Paths(inventory.entries)) && inventory.schemaVersion == BUNDLE_SCHEMA_VERSION
    ensures manifest.catalogEnvelope.name == CATALOG_ENVELOPE_NAME
  {}

  // ----- Nothing else is possible

  lemma HasAMember(names: seq<string>)
    requires names != []
    ensures exists n :: n in names
  {
    assert names[0] in names;
  }

  /** Ascending lists of the same names are the same list. */
  lemma {:induction false} AscendingIsDetermined(a: seq<string>, b: seq<string>)
    requires Ascending(a) && Ascending(b)
    requires forall n :: n in a <==> n in b
    ensures a == b
  {
    if a == [] {
      if b != [] {
        HasAMember(b);
        assert false;
      }
    } else {
      assert a[0] in b;
      FirstIsLeast(a, b);
      forall n ensures n in a[1..] <==> n in b[1..] {
        if n in a[1..] { InTail(a, n); }
        if n in b[1..] { InTail(b, n); }
        assert a == [a[0]] + a[1..] && b == [b[0]] + b[1..];
      }
      AscendingIsDetermined(a[1..], b[1..]);
      assert a == [a[0]] + a[1..] && b == [b[0]] + b[1..];
    }
  }

  lemma FirstIsLeast(a: seq<string>, b: seq<string>)
    requires Ascending(a) && Ascending(b) && a != [] && b != []
    requires a[0] in b && b[0] in a
    ensures a[0] == b[0]
  {
    var i :| 0 <= i < |b| && b[i] == a[0];
    var j :| 0 <= j < |a| && a[j] == b[0];
    if i > 0 && j > 0 {
      assert Less(b[0], b[i]) && Less(a[0], a[j]);
      LessIsStrict(a[0], b[0]);
      assert false;
    }
  }

  lemma InTail(names: seq<string>, n: string)
    requires Ascending(names) && names != [] && n in names[1..]
    ensures n != names[0] && n in names
  {
    var k :| 0 <= k < |names[1..]| && names[1..][k] == n;
    assert names[k + 1] == n;
    LessIsStrict(names[0], names[k + 1]);
  }

  /** Two inventories accepted for one manifest list the same paths in the same order ... */
  lemma ReleasePathsAreDetermined(a: BundleInventory, b: BundleInventory, manifest: ReleaseManifest)
    requires ValidInventory(a) && ValidInventory(b)
    requires ExactlyTheRelease(a, manifest) && ExactlyTheRelease(b, manifest)
    ensures Paths(a.entries) == Paths(b.entries)
  {
    hide ValidEntry, Sum, KindObjects;
    forall n ensures n in Paths(a.entries) <==> n in Paths(b.entries) {
      assert n in Paths(a.entries) <==> n in PathSet(a);
      assert n in Paths(b.entries) <==> n in PathSet(b);
    }
    AscendingIsDetermined(Paths(a.entries), Paths(b.entries));
  }

  /** ... and differ at most in the entries of the two outputs that cannot bind their own bytes. */
  lemma ReleaseIsDetermined(a: BundleInventory, b: BundleInventory, manifest: ReleaseManifest, i: nat)
    requires ValidInventory(a) && ValidInventory(b) && ValidManifest(manifest)
    requires ExactlyTheRelease(a, manifest) && ExactlyTheRelease(b, manifest)
    requires i < |a.entries| && a.entries[i].relativePath !in {RELEASE_CHECKSUMS_NAME, RELEASE_MANIFEST_NAME}
    ensures i < |b.entries| && a.entries[i] == b.entries[i]
  {
    hide ValidInventory, ValidManifest, Signed;
    ReleasePathsAreDetermined(a, b, manifest);
    var n := Paths(a.entries)[i];
    assert n in PathSet(a);
    assert n in NameSet(manifest) + {CATALOG_ENVELOPE_NAME};
    SignedForName(manifest, n);
    var asset :| asset in Signed(manifest) && asset.name == n;
    assert |a.entries| == |Paths(a.entries)| == |b.entries| && Paths(b.entries)[i] == n;
    assert b.entries[i] in b.entries && a.entries[i] in a.entries;
  }

  lemma SignedForName(manifest: ReleaseManifest, n: string)
    requires ValidManifest(manifest) && n in NameSet(manifest) + {CATALOG_ENVELOPE_NAME}
    ensures exists asset :: asset in Signed(manifest) && asset.name == n
  {
    if n in NameSet(manifest) {
      var k :| 0 <= k < |manifest.assets| && Names(manifest.assets)[k] == n;
      assert manifest.assets[k] in Signed(manifest) && manifest.assets[k].name == n;
    } else {
      assert manifest.catalogEnvelope in Signed(manifest);
    }
  }
}
