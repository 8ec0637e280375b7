/** Transfer bundles as file trees: the manifest rules and the verifier of a transferred root. The digest and the
    canonical JSON codecs are parameters. Strings stand for their bytes, one character a byte. */
module TransferBundle {
  import opened Wrappers
  import opened Text
  import opened JsonScan
  import opened Inventory

  type Bytes = seq<byte>

  const VERIFIED_INPUT_NAME: string := "verified-input-bundle-v1.json"
  const TRANSFER_MANIFEST_NAME: string := "transfer-manifest-v1.json"
  const MAX_MANIFEST_BYTES: nat := 8 * 1024 * 1024
  const MAX_ENTRY_BYTES: nat := 8 * 1024 * 1024 * 1024
  const MAX_TOTAL_BYTES: nat := 64 * 1024 * 1024 * 1024
  const MAX_ENTRIES: nat := 32768
  const MAX_JSON_BYTES: nat := 8 * 1024 * 1024
  const OBJECTS: string := "objects/"
  const RECORDS: string := "records/"

  // ----- Documents

  type U16 = n: int | 0 <= n < 0x1_0000

  datatype InputSourceKind = ReleaseIntent | CatalogSource

  datatype InputObject = InputObject(relativePath: string, sourceUrl: string, size: nat, sha256: string)

  datatype InputBundle = InputBundle(
    schemaVersion: U16, sourceKind: InputSourceKind, sourceSha256: string, compatibilityInputSha256: string,
    objects: seq<InputObject>)

  datatype TransferEntry = TransferEntry(relativePath: string, mode: string, size: nat, sha256: string)

  datatype TransferRecordRef = TransferRecordRef(role: string, relativePath: string, sha256: string)

  datatype TransferManifest = TransferManifest(
    schemaVersion: U16, kind: string, sourceCommit: Option<string>, sourceTreeSha256: Option<string>,
    records: seq<TransferRecordRef>, entries: seq<TransferEntry>)

  /** SHA-256 in hexadecimal, the canonical encoders and decoders, and the grammar of source addresses. */
  datatype Codec = Codec(
    sha: Bytes -> string,
    encodeManifest: TransferManifest -> Bytes, decodeManifest: Bytes -> Option<TransferManifest>,
    encodeInput: InputBundle -> Bytes, decodeInput: Bytes -> Option<InputBundle>,
    validUrl: string -> bool) {

    /** All that is assumed of them: digests are 64 hexadecimal digits, and decoding undoes encoding. */
    ghost predicate Lawful() {
      && (forall b :: IsSha256Hex(sha(b)))
      && (forall m :: ValidTransferManifest(m) ==> decodeManifest(encodeManifest(m)) == Some(m))
      && (forall i :: InputSizesFit(i) ==> decodeInput(encodeInput(i)) == Some(i))
    }
  }

  ghost predicate InputSizesFit(input: InputBundle) {
    forall o <- input.objects :: o.size <= MAX_ENTRY_BYTES
  }

  // ----- Rules

  predicate SafeRole(role: string) {
    role != "" && |role| <= 64 && forall c <- role :: 'a' <= c <= 'z' || '0' <= c <= '9' || c == '_'
  }

  predicate IsCommit(s: string) { |s| == 40 && forall c <- s :: '0' <= c <= '9' || 'a' <= c <= 'f' }

  predicate SafeRelative(path: string) { ValidRelativePath(path, 512) }

  predicate SafeComponent(name: string) {
    name != "" && |name| <= 255 && name != "." && name != ".." && forall c <- name :: c != '/' && !IsControl(c)
  }

  function EntryPaths(entries: seq<TransferEntry>): seq<string> {
    seq(|entries|, i requires 0 <= i < |entries| => entries[i].relativePath)
  }

  function Roles(records: seq<TransferRecordRef>): seq<string> {
    seq(|records|, i requires 0 <= i < |records| => records[i].role)
  }

  function TransferSizes(entries: seq<TransferEntry>): seq<nat> {
    seq(|entries|, i requires 0 <= i < |entries| => entries[i].size)
  }

  predicate ValidTransferEntry(e: TransferEntry) {
    && SafeRelative(e.relativePath) && e.relativePath != TRANSFER_MANIFEST_NAME
    && e.mode == "0400" && 0 < e.size <= MAX_ENTRY_BYTES && IsSha256Hex(e.sha256)
    && (StartsWith(e.relativePath, OBJECTS) ==> e.relativePath == OBJECTS + e.sha256)
    && (StartsWith(e.relativePath, RECORDS) ==> e.relativePath == RECORDS + e.sha256)
  }

  predicate ValidRecordRef(r: TransferRecordRef) {
    SafeRole(r.role) && IsSha256Hex(r.sha256) && r.relativePath == RECORDS + r.sha256
  }

  /** The commit and the tree digest come together. */
  predicate ValidSource(commit: Option<string>, tree: Option<string>) {
    && (commit.Some? ==> IsCommit(commit.value)) && (tree.Some? ==> IsSha256Hex(tree.value))
    && (commit.Some? <==> tree.Some?)
  }

  predicate ManifestShape(m: TransferManifest) {
    && m.schemaVersion == 1 && m.kind == "verified_input"
    && 0 < |m.entries| <= MAX_ENTRIES
    && Ascending(EntryPaths(m.entries)) && Ascending(Roles(m.records))
    && ValidSource(m.sourceCommit, m.sourceTreeSha256)
  }

  predicate ValidTransferManifest(m: TransferManifest) {
    && ManifestShape(m)
    && (forall e <- m.entries :: ValidTransferEntry(e))
    && Sum(TransferSizes(m.entries)) <= MAX_TOTAL_BYTES
    && VERIFIED_INPUT_NAME in EntryPaths(m.entries)
    && m.records != [] && (forall r <- m.records :: ValidRecordRef(r))
  }

  method ValidateManifest(m: TransferManifest) returns (ok: bool)
    ensures ok <==> ValidTransferManifest(m)
  {
    NeighboursSuffice(EntryPaths(m.entries));
    NeighboursSuffice(Roles(m.records));
    if m.schemaVersion != 1 || m.kind != "verified_input" || m.entries == [] || |m.entries| > MAX_ENTRIES { return false; }
    if !NeighboursAscend(EntryPaths(m.entries)) || !NeighboursAscend(Roles(m.records)) { return false; }
    if !ValidSource(m.sourceCommit, m.sourceTreeSha256) { return false; }
    hide Ascending, NeighboursAscend, ValidTransferEntry, ValidRecordRef;
    var total := 0;
    ghost var sizes := TransferSizes(m.entries);
    for i := 0 to |m.entries|
      invariant forall k | 0 <= k < i :: ValidTransferEntry(m.entries[k])
      invariant total == Sum(sizes[..i]) <= MAX_TOTAL_BYTES
    {
      SumGrows(sizes, i);
      if !ValidTransferEntry(m.entries[i]) { return false; }
      if total + m.entries[i].size > U64_MAX { return false; }
      total := total + m.entries[i].size;
      if total > MAX_TOTAL_BYTES { return false; }
    }
    assert sizes[..|sizes|] == sizes;
    return VERIFIED_INPUT_NAME in EntryPaths(m.entries)
        && m.records != [] && (forall r <- m.records :: ValidRecordRef(r));
  }

  function ObjectPaths(objects: seq<InputObject>): seq<string> {
    seq(|objects|, i requires 0 <= i < |objects| => objects[i].relativePath)
  }

  function ObjectSizes(objects: seq<InputObject>): seq<nat> {
    seq(|objects|, i requires 0 <= i < |objects| => objects[i].size)
  }

  predicate ValidInputObject(codec: Codec, o: InputObject) {
    && ValidSize(o.size) && ValidRelativePath(o.relativePath, MAX_BUNDLE_PATH_BYTES) && IsSha256Hex(o.sha256)
    && o.relativePath == OBJECTS + o.sha256 && codec.validUrl(o.sourceUrl)
  }

  predicate ValidInput(codec: Codec, input: InputBundle) {
    && input.schemaVersion == BUNDLE_SCHEMA_VERSION
    && 0 < |input.objects| <= MAX_BUNDLE_ENTRIES
    && (forall o <- input.objects :: ValidInputObject(codec, o))
    && Ascending(ObjectPaths(input.objects))
    && Sum(ObjectSizes(input.objects)) <= MAX_BUNDLE_TOTAL_BYTES
    && IsSha256Hex(input.sourceSha256) && IsSha256Hex(input.compatibilityInputSha256)
  }

  /** Decoding and admission of a verified input record. */
  function InputFromJson(codec: Codec, bytes: Bytes): (r: Option<InputBundle>)
    ensures r.Some? ==> ValidInput(codec, r.value) && codec.decodeInput(bytes) == r
  {
    if |bytes| > MAX_JSON_BYTES then None
    else
      match codec.decodeInput(bytes)
      case None => None
      case Some(input) => if ValidInput(codec, input) then Some(input) else None
  }

  // ----- The rules in numbers and names

  lemma RoleMeans(role: string)
    ensures SafeRole(role) <==>
      0 < |role| <= 64 && forall c <- role :: c in "abcdefghijklmnopqrstuvwxyz" || c in "0123456789" || c == '_'
  {
    forall c: char ensures 'a' <= c <= 'z' || '0' <= c <= '9' <==> c in "abcdefghijklmnopqrstuvwxyz" || c in "0123456789" {
      RoleCharacter(c);
    }
  }

  lemma RoleCharacter(c: char)
    ensures 'a' <= c <= 'z' || '0' <= c <= '9' <==> c in "abcdefghijklmnopqrstuvwxyz" || c in "0123456789"
  {
    var (letters, digits) := ("abcdefghijklmnopqrstuvwxyz", "0123456789");
    if '0' <= c <= '9' { assert digits[c as int - '0' as int] == c; }
    if 'a' <= c <= 'z' { assert letters[c as int - 'a' as int] == c; }
  }

  lemma CommitMeans(s: string)
    ensures IsCommit(s) <==> |s| == 40 && Of(s, "0123456789abcdef")
  {
    forall c: char ensures c in "0123456789abcdef" <==> '0' <= c <= '9' || 'a' <= c <= 'f' { HexCharacter(c); }
  }

  lemma ComponentMeans(name: string)
    ensures SafeComponent(name) <==>
      && 0 < |name| <= 255 && name !in {".", ".."}
      && forall c <- name :: c as int >= 32 && c as int != 127 && c != '/'
  {}

  lemma EntryMeans(e: TransferEntry)
    ensures ValidTransferEntry(e) <==>
      && ValidRelativePath(e.relativePath, 512) && e.relativePath != "transfer-manifest-v1.json"
      && e.mode == "0400" && 0 < e.size <= 8589934592 && IsSha256Hex(e.sha256)
      && ("objects/" <= e.relativePath ==> e.relativePath == "objects/" + e.sha256)
      && ("records/" <= e.relativePath ==> e.relativePath == "records/" + e.sha256)
  {
    hide ValidRelativePath, IsSha256Hex;
  }

  lemma RefMeans(r: TransferRecordRef)
    ensures ValidRecordRef(r) <==> SafeRole(r.role) && IsSha256Hex(r.sha256) && r.relativePath == "records/" + r.sha256
  {
    hide SafeRole, IsSha256Hex;
  }

  /** A valid manifest: its entries and roles ascend strictly, and the claims come together or not at all. */
  lemma ManifestMeans(m: TransferManifest)
    ensures ValidTransferManifest(m) <==>
      && m.schemaVersion == 1 && m.kind == "verified_input"
      && 0 < |m.entries| <= 32768 && Ascending(EntryPaths(m.entries)) && Ascending(Roles(m.records))
      && (match (m.sourceCommit, m.sourceTreeSha256)
          case (Some(commit), Some(tree)) => IsCommit(commit) && IsSha256Hex(tree)
          case (None, None) => true
          case _ => false)
      && (forall e <- m.entries :: ValidTransferEntry(e))
      && Sum(TransferSizes(m.entries)) <= 68719476736
      && "verified-input-bundle-v1.json" in EntryPaths(m.entries)
      && m.records != [] && (forall r <- m.records :: ValidRecordRef(r))
  {
    hide Ascending, Sum, ValidTransferEntry, ValidRecordRef, IsCommit, IsSha256Hex;
  }

  lemma InputMeans(codec: Codec, input: InputBundle)
    ensures ValidInput(codec, input) <==>
      && input.schemaVersion == 1 && 0 < |input.objects| <= 32768
      && (forall o <- input.objects ::
            && 0 < o.size <= 8589934592 && ValidRelativePath(o.relativePath, 512) && IsSha256Hex(o.sha256)
            && o.relativePath == "objects/" + o.sha256 && codec.validUrl(o.sourceUrl))
      && Ascending(ObjectPaths(input.objects)) && Sum(ObjectSizes(input.objects)) <= 68719476736
      && IsSha256Hex(input.sourceSha256) && IsSha256Hex(input.compatibilityInputSha256)
  {
    hide Ascending, Sum, ValidRelativePath, IsSha256Hex;
  }

  // ----- Trees

  /** Everything below a root, by relative path; `others` are neither directories nor regular files. */
  datatype Tree = Tree(directories: set<string>, files: map<string, Bytes>, others: set<string>)

  /** The first slash splits a path into a directory and a name. */
  function SplitOnce(path: string): (r: (string, Option<string>))
    ensures match r.1 case None => r.0 == path case Some(rest) => path == r.0 + "/" + rest && '/' !in r.0
  {
    match Find(path, "/")
    case None => (path, None)
    case Some(i) =>
      FindSlash(path);
      (path[..i], Some(path[i + 1..]))
  }

  /** The parent directory of a path that is at most two safe names deep. */
  function SplitOutputRelative(path: string): (r: Option<(Option<string>, string)>)
    ensures r.Some? && r.value.0.Some? ==> path == r.value.0.value + "/" + r.value.1
    ensures r.Some? && r.value.0.None? ==> path == r.value.1
  {
    if !SafeRelative(path) then None
    else
      match SplitOnce(path)
      case (name, None) => Some((None, name))
      case (directory, Some(name)) =>
        if SafeComponent(directory) && SafeComponent(name) then Some((Some(directory), name)) else None
  }

  lemma SplitMeans(path: string, directory: string, name: string)
    ensures SplitOutputRelative(path) == Some((None, path)) <==> SafeRelative(path) && '/' !in path
    ensures SplitOutputRelative(path).Some? && SplitOutputRelative(path).value.0.None? ==> '/' !in path
    ensures SplitOutputRelative(path) == Some((Some(directory), name)) <==>
      SafeRelative(path) && SafeComponent(directory) && SafeComponent(name) && path == directory + "/" + name
  {
    hide SafeRelative;
    FindSlash(path);
    if SafeComponent(directory) && path == directory + "/" + name { SplitOnceIs(path, directory, name); }
  }

  predicate IsPayloadDirectory(name: string) { name == "objects" || name == "records" }

  /** A name as it is listed below the root: a file beside the payload directories, or one in such a directory. */
  predicate ListedName(path: string) {
    match SplitOnce(path)
    case (name, None) => SafeComponent(name) && !IsPayloadDirectory(name)
    case (directory, Some(name)) => IsPayloadDirectory(directory) && SafeComponent(name)
  }

  /** Lists a root: the two payload directories may hold regular files only, everything else must be a file. */
  function EnumerateTree(t: Tree): Option<set<string>> {
    if t.others == {} && t.directories <= {"objects", "records"} && forall p <- t.files :: ListedName(p)
    then Some(t.files.Keys)
    else None
  }

  /** Every file is at the root or in a directory of the tree. */
  predicate WellFormed(t: Tree) {
    forall p <- t.files :: match SplitOnce(p) case (_, None) => true case (directory, Some(_)) => directory in t.directories
  }

  // ----- Verification

  datatype Transferred = Transferred(
    manifest: TransferManifest, manifestBytes: Bytes, bundleSha256: string, objectCount: nat, totalBytes: nat,
    verifiedInput: InputBundle)

  /** The file of an entry has the entry's size and digest. */
  predicate EntryMatches(codec: Codec, t: Tree, e: TransferEntry) {
    && SplitOutputRelative(e.relativePath).Some?
    && e.relativePath in t.files && |t.files[e.relativePath]| == e.size && codec.sha(t.files[e.relativePath]) == e.sha256
  }

  function Expected(m: TransferManifest): set<string> {
    (set p <- EntryPaths(m.entries)) + {TRANSFER_MANIFEST_NAME}
  }

  function ManifestedObjects(m: TransferManifest): set<(string, nat, string)> {
    set e <- m.entries | StartsWith(e.relativePath, OBJECTS) :: (e.relativePath, e.size, e.sha256)
  }

  function VerifiedObjects(input: InputBundle): set<(string, nat, string)> {
    set o <- input.objects :: (o.relativePath, o.size, o.sha256)
  }

  /** The first entry with that path. */
  function EntryOf(entries: seq<TransferEntry>, path: string): (e: Option<TransferEntry>)
    ensures e.Some? ==> e.value in entries && e.value.relativePath == path
    ensures e.None? ==> forall f <- entries :: f.relativePath != path
  {
    if entries == [] then None
    else if entries[0].relativePath == path then Some(entries[0])
    else EntryOf(entries[1..], path)
  }

  predicate RecordMatches(m: TransferManifest, r: TransferRecordRef) {
    var e := EntryOf(m.entries, r.relativePath);
    e.Some? && e.value.sha256 == r.sha256 && StartsWith(e.value.relativePath, RECORDS)
  }

  /** The manifest file of a root. */
  function ReadManifest(codec: Codec, t: Tree): (m: Option<TransferManifest>)
    ensures m.Some? ==> TRANSFER_MANIFEST_NAME in t.files && ValidTransferManifest(m.value)
    ensures m.Some? ==> codec.encodeManifest(m.value) == t.files[TRANSFER_MANIFEST_NAME]
  {
    if TRANSFER_MANIFEST_NAME !in t.files || |t.files[TRANSFER_MANIFEST_NAME]| > MAX_MANIFEST_BYTES then None
    else
      match codec.decodeManifest(t.files[TRANSFER_MANIFEST_NAME])
      case None => None
      case Some(m) =>
        if codec.encodeManifest(m) == t.files[TRANSFER_MANIFEST_NAME] && ValidTransferManifest(m) then Some(m) else None
  }

  /** The verified input record of a root. */
  function ReadInput(codec: Codec, t: Tree, m: TransferManifest): (input: Option<InputBundle>)
    ensures input.Some? ==> ValidInput(codec, input.value)
    ensures input.Some? ==> VERIFIED_INPUT_NAME in t.files && codec.encodeInput(input.value) == t.files[VERIFIED_INPUT_NAME]
  {
    var e := EntryOf(m.entries, VERIFIED_INPUT_NAME);
    if e.None? || e.value.size > MAX_MANIFEST_BYTES || VERIFIED_INPUT_NAME !in t.files then None
    else
      match InputFromJson(codec, t.files[VERIFIED_INPUT_NAME])
      case None => None
      case Some(input) => if codec.encodeInput(input) == t.files[VERIFIED_INPUT_NAME] then Some(input) else None
  }

  predicate TreeMatches(codec: Codec, t: Tree, m: TransferManifest) {
    EnumerateTree(t) == Some(Expected(m)) && forall e <- m.entries :: EntryMatches(codec, t, e)
  }

  predicate ContentsAgree(m: TransferManifest, input: InputBundle) {
    ManifestedObjects(m) == VerifiedObjects(input) && forall r <- m.records :: RecordMatches(m, r)
  }

  /** What the verifier of a root accepts, and what it reports. */
  function VerifyRoot(codec: Codec, t: Tree): (r: Option<Transferred>)
    ensures r.Some? ==> TreeMatches(codec, t, r.value.manifest) && ContentsAgree(r.value.manifest, r.value.verifiedInput)
  {
    match ReadManifest(codec, t)
    case None => None
    case Some(m) =>
      if !TreeMatches(codec, t, m) then None
      else
        match ReadInput(codec, t, m)
        case None => None
        case Some(input) =>
          if !ContentsAgree(m, input) then None
          else
            var bytes := t.files[TRANSFER_MANIFEST_NAME];
            Some(Transferred(m, bytes, codec.sha(bytes), |input.objects|, Sum(TransferSizes(m.entries)), input))
  }

  /** The verifier of a root. */
  method VerifyTransferredBundleRoot(codec: Codec, t: Tree) returns (r: Option<Transferred>)
    ensures r == VerifyRoot(codec, t)
  {
    hide ValidTransferManifest, ValidInput, EnumerateTree, Expected, InputFromJson, EntryOf, RecordMatches, EntryMatches,
         ManifestedObjects, VerifiedObjects;
    if TRANSFER_MANIFEST_NAME !in t.files { return None; }
    var manifestBytes := t.files[TRANSFER_MANIFEST_NAME];
    if |manifestBytes| > MAX_MANIFEST_BYTES { return None; }
    var decoded := codec.decodeManifest(manifestBytes);
    if decoded.None? { return None; }
    var manifest := decoded.value;
    if codec.encodeManifest(manifest) != manifestBytes { return None; }
    var valid := ValidateManifest(manifest);
    if !valid { return None; }
    assert ReadManifest(codec, t) == Some(manifest);
    var listed := EnumerateTree(t);
    if listed != Some(Expected(manifest)) { return None; }

    var total := 0;
    ghost var sizes := TransferSizes(manifest.entries);
    for i := 0 to |manifest.entries|
      invariant forall k | 0 <= k < i :: EntryMatches(codec, t, manifest.entries[k])
      invariant total == Sum(sizes[..i])
    {
      SumGrows(sizes, i);
      BoundedTotal(manifest);
      if !EntryMatches(codec, t, manifest.entries[i]) { return None; }
      if total + manifest.entries[i].size > U64_MAX { return None; }
      total := total + manifest.entries[i].size;
    }
    assert sizes[..|sizes|] == sizes;
    assert TreeMatches(codec, t, manifest);

    var input := ReadVerifiedInput(codec, t, manifest);
    if input.None? { return None; }
    if ManifestedObjects(manifest) != VerifiedObjects(input.value) { return None; }
    for i := 0 to |manifest.records|
      invariant forall k | 0 <= k < i :: RecordMatches(manifest, manifest.records[k])
    {
      if !RecordMatches(manifest, manifest.records[i]) { return None; }
    }
    return Some(Transferred(manifest, manifestBytes, codec.sha(manifestBytes), |input.value.objects|, total, input.value));
  }

  /** A validated manifest's total fits 64 bits, so the verifier's own checked sum cannot fail. */
  lemma BoundedTotal(m: TransferManifest)
    requires ValidTransferManifest(m)
    ensures Sum(TransferSizes(m.entries)) <= U64_MAX
  {}

  method ReadVerifiedInput(codec: Codec, t: Tree, m: TransferManifest) returns (r: Option<InputBundle>)
    ensures r == ReadInput(codec, t, m)
  {
    var e := EntryOf(m.entries, VERIFIED_INPUT_NAME);
    if e.None? || e.value.size > MAX_MANIFEST_BYTES || VERIFIED_INPUT_NAME !in t.files { return None; }
    var bytes := t.files[VERIFIED_INPUT_NAME];
    var input := InputFromJson(codec, bytes);
    if input.None? || codec.encodeInput(input.value) != bytes { return None; }
    return input;
  }

  /** What acceptance means. */
  lemma Accepted(codec: Codec, t: Tree, v: Transferred)
    requires VerifyRoot(codec, t) == Some(v)
    ensures ValidTransferManifest(v.manifest) && ValidInput(codec, v.verifiedInput)
    ensures TreeMatches(codec, t, v.manifest) && ContentsAgree(v.manifest, v.verifiedInput)
    ensures TRANSFER_MANIFEST_NAME in t.files && v.manifestBytes == t.files[TRANSFER_MANIFEST_NAME]
  {
    hide ValidTransferManifest, ValidInput, TreeMatches, ContentsAgree, InputFromJson, EntryOf;
  }

  // ----- What the verifier looks at, file by file

  lemma ListedMeans(path: string)
    ensures ListedName(path) <==>
      || ('/' !in path && SafeComponent(path) && path != "objects" && path != "records")
      || (exists name :: SafeComponent(name) && (path == "objects" + "/" + name || path == "records" + "/" + name))
  {
    hide SafeComponent;
    FindSlash(path);
    if name :| SafeComponent(name) && (path == "objects" + "/" + name || path == "records" + "/" + name) {
      SplitOnceIs(path, if path == "objects" + "/" + name then "objects" else "records", name);
    }
    if SplitOnce(path).1.Some? { assert '/' in path; }
  }

  lemma SplitOnceIs(path: string, directory: string, name: string)
    requires path == directory + "/" + name && '/' !in directory
    ensures SplitOnce(path) == (directory, Some(name))
  {
    assert forall k | 0 <= k < |directory| :: path[k] == directory[k];
    FirstSlash(path, |directory|);
    assert path[..|directory|] == directory && path[|directory| + 1..] == name;
  }

  /** The tree: only regular files, beside or inside the two payload directories; they are the entries and the manifest,
      and each entry's file has its size and its digest. */
  lemma TreeMeans(codec: Codec, t: Tree, m: TransferManifest)
    requires ValidTransferManifest(m)
    ensures TreeMatches(codec, t, m) <==>
      && t.others == {} && t.directories <= {"objects", "records"} && (forall p <- t.files :: ListedName(p))
      && t.files.Keys == (set p <- EntryPaths(m.entries)) + {"transfer-manifest-v1.json"}
      && (forall e <- m.entries ::
            e.relativePath in t.files && |t.files[e.relativePath]| == e.size && codec.sha(t.files[e.relativePath]) == e.sha256)
  {
    hide ListedName, SafeRelative, ManifestShape, Sum, ValidRecordRef, IsSha256Hex;
    forall e <- m.entries | e.relativePath in t.files && ListedName(e.relativePath) ensures SplitOutputRelative(e.relativePath).Some? {
      assert ValidTransferEntry(e);
      ListedSplits(e.relativePath);
    }
  }

  lemma ListedSplits(path: string)
    requires ListedName(path) && SafeRelative(path)
    ensures SplitOutputRelative(path).Some?
  {
    hide SafeRelative;
    assert SafeComponent("objects") && SafeComponent("records");
    hide SafeComponent;
  }

  lemma {:induction false} EntryOfIsThere(entries: seq<TransferEntry>, e: TransferEntry)
    requires Ascending(EntryPaths(entries)) && e in entries
    ensures EntryOf(entries, e.relativePath) == Some(e)
  {
    var f := EntryOf(entries, e.relativePath).value;
    var i :| 0 <= i < |entries| && entries[i] == e;
    var j :| 0 <= j < |entries| && entries[j] == f;
    AscendingIsInjective(EntryPaths(entries), i, j);
  }

  predicate IsObjectEntry(e: TransferEntry) { "objects/" <= e.relativePath }

  /** The contents: the manifest lists under objects/ what the record lists, and each record refers to an entry. */
  lemma ContentsMean(m: TransferManifest, input: InputBundle)
    requires ValidTransferManifest(m)
    ensures ContentsAgree(m, input) <==>
      && EveryEntryHasObject(m, input) && EveryObjectHasEntry(m, input)
      && (forall r <- m.records :: exists e <- m.entries :: e.relativePath == r.relativePath && e.sha256 == r.sha256)
  {
    ManifestedMeans(m, input);
    forall r <- m.records
      ensures RecordMatches(m, r) <==> exists e <- m.entries :: e.relativePath == r.relativePath && e.sha256 == r.sha256
    {
      assert ValidRecordRef(r);
      RecordMeans(m, r);
    }
    hide ValidTransferManifest, RecordMatches, ManifestedObjects, VerifiedObjects;
  }

  lemma RecordMeans(m: TransferManifest, r: TransferRecordRef)
    requires Ascending(EntryPaths(m.entries)) && ValidRecordRef(r)
    ensures RecordMatches(m, r) <==> exists e <- m.entries :: e.relativePath == r.relativePath && e.sha256 == r.sha256
  {
    assert RECORDS <= r.relativePath;
    hide ValidRecordRef;
    if e :| e in m.entries && e.relativePath == r.relativePath && e.sha256 == r.sha256 {
      EntryOfIsThere(m.entries, e);
    }
  }

  predicate SameObject(e: TransferEntry, o: InputObject) {
    IsObjectEntry(e) && o.relativePath == e.relativePath && o.size == e.size && o.sha256 == e.sha256
  }

  lemma EntryBehind(m: TransferManifest, x: (string, nat, string)) returns (e: TransferEntry)
    requires x in ManifestedObjects(m)
    ensures e in m.entries && IsObjectEntry(e) && e.relativePath == x.0 && e.size == x.1 && e.sha256 == x.2
  {
    e :| e in m.entries && StartsWith(e.relativePath, OBJECTS) && (e.relativePath, e.size, e.sha256) == x;
  }

  lemma ObjectBehind(input: InputBundle, x: (string, nat, string)) returns (o: InputObject)
    requires x in VerifiedObjects(input)
    ensures o in input.objects && o.relativePath == x.0 && o.size == x.1 && o.sha256 == x.2
  {
    o :| o in input.objects && (o.relativePath, o.size, o.sha256) == x;
  }

  lemma EntryIsIn(m: TransferManifest, e: TransferEntry)
    requires e in m.entries && IsObjectEntry(e)
    ensures (e.relativePath, e.size, e.sha256) in ManifestedObjects(m)
  {}

  lemma ObjectIsIn(input: InputBundle, o: InputObject)
    requires o in input.objects
    ensures (o.relativePath, o.size, o.sha256) in VerifiedObjects(input)
  {}

  ghost predicate EveryEntryHasObject(m: TransferManifest, input: InputBundle) {
    forall e <- m.entries | IsObjectEntry(e) :: exists o <- input.objects :: SameObject(e, o)
  }

  ghost predicate EveryObjectHasEntry(m: TransferManifest, input: InputBundle) {
    forall o <- input.objects :: exists e <- m.entries :: SameObject(e, o)
  }

  lemma ManifestedMeans(m: TransferManifest, input: InputBundle)
    ensures ManifestedObjects(m) == VerifiedObjects(input) <==> EveryEntryHasObject(m, input) && EveryObjectHasEntry(m, input)
  {
    hide ManifestedObjects, VerifiedObjects, IsObjectEntry;
    var (a, b) := (ManifestedObjects(m), VerifiedObjects(input));
    if a == b {
      forall e <- m.entries | IsObjectEntry(e) ensures exists o <- input.objects :: SameObject(e, o) {
        EntryIsIn(m, e);
        var o := ObjectBehind(input, (e.relativePath, e.size, e.sha256));
        assert SameObject(e, o);
      }
      forall o <- input.objects ensures exists e <- m.entries :: SameObject(e, o) {
        ObjectIsIn(input, o);
        var e := EntryBehind(m, (o.relativePath, o.size, o.sha256));
        assert SameObject(e, o);
      }
    }
    if EveryEntryHasObject(m, input) && EveryObjectHasEntry(m, input) {
      forall x ensures x in a <==> x in b { SameMembers(m, input, x); }
    }
  }

  lemma SameMembers(m: TransferManifest, input: InputBundle, x: (string, nat, string))
    requires EveryEntryHasObject(m, input) && EveryObjectHasEntry(m, input)
    ensures x in ManifestedObjects(m) <==> x in VerifiedObjects(input)
  {
    hide ManifestedObjects, VerifiedObjects, IsObjectEntry;
    if x in ManifestedObjects(m) {
      var e := EntryBehind(m, x);
      var o := ObjectOf(m, input, e);
      ObjectIsIn(input, o);
      assert x == (o.relativePath, o.size, o.sha256);
    }
    if x in VerifiedObjects(input) {
      var o := ObjectBehind(input, x);
      var e := EntryFor(m, input, o);
      EntryIsIn(m, e);
      assert x == (e.relativePath, e.size, e.sha256);
    }
  }

  lemma ObjectOf(m: TransferManifest, input: InputBundle, e: TransferEntry) returns (o: InputObject)
    requires EveryEntryHasObject(m, input) && e in m.entries && IsObjectEntry(e)
    ensures o in input.objects && SameObject(e, o)
  {
    o :| o in input.objects && SameObject(e, o);
  }

  lemma EntryFor(m: TransferManifest, input: InputBundle, o: InputObject) returns (e: TransferEntry)
    requires EveryObjectHasEntry(m, input) && o in input.objects
    ensures e in m.entries && SameObject(e, o) && IsObjectEntry(e)
  {
    e :| e in m.entries && SameObject(e, o);
  }

  /** The whole verdict: both documents are within their bounds, canonical and valid, the tree and the contents agree with
      them, and the report is read off the files. */
  lemma VerdictMeans(codec: Codec, t: Tree, v: Transferred)
    ensures VerifyRoot(codec, t) == Some(v) <==>
      && "transfer-manifest-v1.json" in t.files && v.manifestBytes == t.files["transfer-manifest-v1.json"]
      && |v.manifestBytes| <= 8388608 && codec.decodeManifest(v.manifestBytes) == Some(v.manifest)
      && codec.encodeManifest(v.manifest) == v.manifestBytes && ValidTransferManifest(v.manifest)
      && TreeMatches(codec, t, v.manifest)
      && "verified-input-bundle-v1.json" in t.files && |t.files["verified-input-bundle-v1.json"]| <= 8388608
      && codec.decodeInput(t.files["verified-input-bundle-v1.json"]) == Some(v.verifiedInput)
      && codec.encodeInput(v.verifiedInput) == t.files["verified-input-bundle-v1.json"] && ValidInput(codec, v.verifiedInput)
      && ContentsAgree(v.manifest, v.verifiedInput)
      && v.bundleSha256 == codec.sha(v.manifestBytes) && v.objectCount == |v.verifiedInput.objects|
      && v.totalBytes == Sum(TransferSizes(v.manifest.entries))
  {
    hide ValidTransferManifest, ValidInput, ContentsAgree, Sum, TreeMatches;
    if ReadManifest(codec, t).Some? && TreeMatches(codec, t, ReadManifest(codec, t).value) {
      InputSize(codec, t, ReadManifest(codec, t).value);
    }
  }

  lemma InputSize(codec: Codec, t: Tree, m: TransferManifest)
    requires ValidTransferManifest(m) && TreeMatches(codec, t, m)
    ensures VERIFIED_INPUT_NAME in t.files
    ensures var e := EntryOf(m.entries, VERIFIED_INPUT_NAME); e.Some? && e.value.size == |t.files[VERIFIED_INPUT_NAME]|
  {
    hide ManifestShape, EnumerateTree, Sum, ValidTransferEntry, ValidRecordRef, SplitOutputRelative;
    var k :| 0 <= k < |m.entries| && EntryPaths(m.entries)[k] == VERIFIED_INPUT_NAME;
    assert m.entries[k] in m.entries;
    var e := EntryOf(m.entries, VERIFIED_INPUT_NAME).value;
    assert EntryMatches(codec, t, e);
  }
}
