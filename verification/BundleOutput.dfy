/** The output root that stages, prepares and publishes a bundle, and the writer and exporter that use it. */
module BundleOutput {
  import opened Wrappers
  import opened Text
  import opened JsonScan
  import opened Inventory
  import opened TransferBundle
  import opened BundleWriter
  import opened BundleContents

  datatype TrackedFile = TrackedFile(size: nat, sha256: string)

  datatype Publication = Published | Cancelled | Failed

  /** A staged payload. `output` is what publication has bound to the final name. */
  class OutputRoot {
    const codec: Codec
    var payload: Tree
    var directories: set<string>
    var files: map<string, TrackedFile>
    var prepared: bool
    var published: bool
    var output: Option<Tree>

    ghost predicate Valid()
      reads this
    {
      && payload.directories == directories && payload.others == {} && WellFormed(payload)
      && (forall p <- files :: p in payload.files && Matches(payload.files[p], files[p]))
      && (published ==> prepared && output == Some(payload)) && (!published ==> output.None?)
      && (prepared ==> payload.files.Keys == files.Keys)
    }

    predicate Matches(content: Bytes, tracked: TrackedFile) {
      |content| == tracked.size && codec.sha(content) == tracked.sha256
    }

    constructor (codec: Codec)
      ensures Valid() && this.codec == codec && payload == Tree({}, map[], {})
      ensures files == map[] && !prepared && !published
    {
      this.codec := codec;
      payload, directories, files, prepared, published, output := Tree({}, map[], {}), {}, map[], false, false, None;
    }

    method CreateDirectory(name: string) returns (ok: bool)
      requires Valid() && !prepared
      modifies this`payload, this`directories
      ensures Valid()
      ensures ok <==> SafeComponent(name) && name !in old(directories) && name !in old(payload.files)
      ensures payload == if ok then old(payload).(directories := old(directories) + {name}) else old(payload)
    {
      if !SafeComponent(name) || name in directories || name in payload.files { return false; }
      payload := payload.(directories := payload.directories + {name});
      directories := directories + {name};
      return true;
    }

    /** The parent directory is there and the name is free. */
    predicate CanCreate(relative: string)
      reads this
    {
      && relative !in files && relative !in payload.files && relative !in payload.directories
      && match SplitOutputRelative(relative)
         case None => false
         case Some((None, _)) => true
         case Some((Some(directory), _)) => directory in directories
    }

    method WriteFile(relative: string, bytes: Bytes) returns (ok: bool)
      requires Valid() && !prepared
      modifies this`payload, this`files
      ensures Valid()
      ensures ok <==> old(CanCreate(relative))
      ensures payload == if ok then old(payload).(files := old(payload.files)[relative := bytes]) else old(payload)
      ensures files == if ok then old(files)[relative := TrackedFile(|bytes|, codec.sha(bytes))] else old(files)
    {
      hide WellFormed, SplitOutputRelative;
      if !CanCreate(relative) { return false; }
      StaysWellFormed(payload, relative, bytes);
      payload := payload.(files := payload.files[relative := bytes]);
      files := files[relative := TrackedFile(|bytes|, codec.sha(bytes))];
      return true;
    }

    /** Copies at most `size` bytes; the copy counts only if the source ends there and has the digest. */
    method CopyFile(relative: string, source: Bytes, size: nat, digest: string) returns (ok: bool)
      requires Valid() && !prepared
      modifies this`payload, this`files
      ensures Valid()
      ensures ok <==> old(CanCreate(relative)) && |source| == size && codec.sha(source) == digest
      ensures payload == if old(CanCreate(relative))
                         then old(payload).(files := old(payload.files)[relative := Bounded(source, size)])
                         else old(payload)
      ensures files == if ok then old(files)[relative := TrackedFile(|source|, codec.sha(source))] else old(files)
    {
      hide WellFormed, SplitOutputRelative;
      if !CanCreate(relative) { return false; }
      var copied := Bounded(source, size);
      StaysWellFormed(payload, relative, copied);
      payload := payload.(files := payload.files[relative := copied]);
      if |copied| != size { return false; }
      if |source| > size { return false; }
      if codec.sha(copied) != digest { return false; }
      files := files[relative := TrackedFile(size, digest)];
      return true;
    }

    /** Everything staged is tracked, and everything tracked is staged unchanged. */
    method VerifyTrackedTree() returns (ok: bool)
      requires Valid()
      ensures ok <==> payload.files.Keys == files.Keys
      ensures ok ==> forall p <- payload.files ::
        |payload.files[p]| == files[p].size && codec.sha(payload.files[p]) == files[p].sha256
    {
      ok := && payload.directories == directories && payload.others == {} && payload.files.Keys == files.Keys
            && forall p <- files :: p in payload.files && Matches(payload.files[p], files[p]);
    }

    method Prepare() returns (ok: bool)
      requires Valid()
      modifies this`prepared
      ensures Valid()
      ensures ok <==> !old(prepared) && !published && payload.files.Keys == files.Keys
      ensures prepared == (ok || old(prepared))
    {
      if prepared || published { return false; }
      var tracked := VerifyTrackedTree();
      if !tracked { return false; }
      prepared := true;
      return true;
    }

    /** The one-shot rename: only a prepared root, only after the claim, never twice and never over another name. */
    method Publish(claimed: bool, taken: bool) returns (r: Publication)
      requires Valid()
      modifies this`published, this`output
      ensures Valid()
      ensures r == if !prepared || old(published) then Failed
                   else if !claimed then Cancelled else if taken then Failed else Published
      ensures published == (r == Published || old(published))
      ensures output == if r == Published then Some(payload) else old(output)
    {
      if !prepared || published { return Failed; }
      if !claimed { return Cancelled; }
      if taken { return Failed; }
      output := Some(payload);
      published := true;
      return Published;
    }
  }

  /** What can be created: a new name at the root, or in a directory that is there. */
  lemma CreationMeans(root: OutputRoot, relative: string)
    requires root.Valid()
    ensures root.CanCreate(relative) <==>
      && SafeRelative(relative) && relative !in root.payload.files && relative !in root.payload.directories
      && ('/' !in relative || exists directory, name ::
            directory in root.directories && SafeComponent(directory) && SafeComponent(name) && relative == directory + "/" + name)
  {
    hide SafeRelative, SafeComponent, SplitOutputRelative;
    SplitMeans(relative, "", "");
    match SplitOutputRelative(relative) {
      case Some((Some(directory), name)) => SplitMeans(relative, directory, name);
      case _ =>
    }
    forall directory, name
      ensures SplitOutputRelative(relative) == Some((Some(directory), name)) <==>
        SafeRelative(relative) && SafeComponent(directory) && SafeComponent(name) && relative == directory + "/" + name
    {
      SplitMeans(relative, directory, name);
    }
  }

  /** What a copy bounded by `size` leaves in the target. */
  function Bounded(source: Bytes, size: nat): (r: Bytes)
    ensures |r| <= size && r <= source && (|source| <= size ==> r == source)
  {
    if |source| <= size then source else source[..size]
  }

  lemma SplitAgrees(path: string)
    requires SplitOutputRelative(path).Some?
    ensures match SplitOutputRelative(path).value.0
      case None => SplitOnce(path).1.None?
      case Some(directory) => SplitOnce(path).1.Some? && SplitOnce(path).0 == directory
  {}

  lemma StaysWellFormed(t: Tree, path: string, content: Bytes)
    requires WellFormed(t) && SplitOutputRelative(path).Some?
    requires match SplitOutputRelative(path).value.0 case None => true case Some(directory) => directory in t.directories
    ensures WellFormed(t.(files := t.files[path := content]))
  {
    SplitAgrees(path);
  }

  // ----- Writing a preflighted bundle

  lemma PayloadPathSplits(directory: string, digest: string)
    requires IsPayloadDirectory(directory) && IsSha256Hex(digest) && SafeRelative(directory + "/" + digest)
    ensures SplitOutputRelative(directory + "/" + digest) == Some((Some(directory), digest))
  {
    assert '/' !in directory;
    SplitOnceAt(directory, digest);
    HexIsSafe(digest);
    assert SafeComponent(directory);
  }

  /** A path the output root can create below the two payload directories. */
  predicate Creatable(path: string) {
    && !IsPayloadDirectory(path)
    && match SplitOutputRelative(path)
       case None => false
       case Some((None, _)) => true
       case Some((Some(directory), _)) => IsPayloadDirectory(directory)
  }

  lemma PayloadPathIsCreatable(path: string, digest: string)
    requires IsSha256Hex(digest) && SafeRelative(path) && (path == RECORDS + digest || path == OBJECTS + digest)
    ensures Creatable(path)
  {
    hide SplitOutputRelative, SafeRelative, ListedName;
    if path == RECORDS + digest {
      assert path == "records" + "/" + digest;
      PayloadPathSplits("records", digest);
      PayloadPath("records", digest);
    } else {
      assert path == "objects" + "/" + digest;
      PayloadPathSplits("objects", digest);
      PayloadPath("objects", digest);
    }
    LongerThanDirectory(path);
  }

  /** The paths the writer asks for, once the manifest has passed. */
  lemma PlannedPathsAreCreatable(codec: Codec, q: Request, e: TransferEntry)
    requires codec.Lawful() && Passes(codec, q) && e in Collected(codec, q)
    ensures Creatable(e.relativePath)
  {
    hide Codec.Lawful, Collected, Creatable, SafeRelative;
    CollectedKinds(codec, q, e);
    CollectedIsSafe(codec, q, e);
    if e == InputRecordEntry(codec, q) {
      InputNameSplits();
    } else {
      PayloadPathIsCreatable(e.relativePath, e.sha256);
    }
  }

  lemma CollectedIsSafe(codec: Codec, q: Request, e: TransferEntry)
    requires Passes(codec, q) && e in Collected(codec, q)
    ensures SafeRelative(e.relativePath)
  {
    hide ManifestShape, Collected, SafeRelative, Sum, ClaimsHold, RecordsDiffer, ObjectsAgree, Distinct;
    assert e in Manifest(codec, q).entries && ValidTransferEntry(e);
  }

  lemma LongerThanDirectory(path: string)
    requires ListedName(path)
    ensures !IsPayloadDirectory(path)
  {
    if IsPayloadDirectory(path) { SplitOnceNowhere(path); }
  }

  lemma InputNameSplits()
    requires SafeRelative(VERIFIED_INPUT_NAME)
    ensures Creatable(VERIFIED_INPUT_NAME)
  {
    hide SafeRelative;
    InputNameIsSafe();
    SplitOnceNowhere(VERIFIED_INPUT_NAME);
  }

  lemma ManifestNameSplits()
    ensures Creatable(TRANSFER_MANIFEST_NAME)
  {
    hide SplitOnce;
    ManifestNameIsSafe();
    SplitOnceNowhere(TRANSFER_MANIFEST_NAME);
    NoSlash(TRANSFER_MANIFEST_NAME);
    assert SafeRelative(TRANSFER_MANIFEST_NAME);
  }

  lemma NextRecordIsNew(codec: Codec, q: Request, i: nat)
    requires Passes(codec, q) && i < |q.records|
    ensures var records := Plan(codec, q).records;
      && records[i].relativePath !in PutRecords(map[], records[..i])
      && PutRecords(map[], records[..i + 1]) == PutRecords(map[], records[..i])[records[i].relativePath := records[i].bytes]
  {
    hide Passes, PutRecords;
    var records := Plan(codec, q).records;
    PreparedPathsDiffer(codec, q);
    RecordsAreWritten(map[], records[..i]);
    forall r <- records[..i] ensures r.relativePath != records[i].relativePath {
      var k :| 0 <= k < i && records[..i][k] == r;
    }
    PutRecordsStep(records, i);
  }

  lemma PutRecordsStep(records: seq<PreparedRecord>, i: nat)
    requires i < |records|
    ensures PutRecords(map[], records[..i + 1]) == PutRecords(map[], records[..i])[records[i].relativePath := records[i].bytes]
  {
    assert records[..i + 1][..i] == records[..i];
  }

  lemma NextObjectIsNew(codec: Codec, q: Request, i: nat)
    requires Passes(codec, q) && i < |Distinct(q.objects)|
    ensures var (objects, records) := (Distinct(q.objects), PutRecords(map[], Plan(codec, q).records));
      && ObjectPath(objects[i]) !in PutObjects(records, objects[..i])
      && PutObjects(records, objects[..i + 1]) == PutObjects(records, objects[..i])[ObjectPath(objects[i]) := objects[i].content]
  {
    hide Passes, PutRecords, PutObjects, Distinct, Plan;
    var (objects, p) := (Distinct(q.objects), Plan(codec, q));
    var records := PutRecords(map[], p.records);
    DistinctDiffer(q.objects);
    ObjectsAreWritten(records, objects[..i]);
    EarlierObjectsDiffer(objects, i);
    WrittenOnce(codec, q);
    forall r <- p.records ensures r.relativePath != ObjectPath(objects[i]) {
      RecordIsNoObject(codec, q, r, objects[i]);
    }
    PutObjectsStep(records, objects, i);
  }

  lemma EarlierObjectsDiffer(objects: seq<PublicObject>, i: nat)
    requires DistinctDigests(objects) && i < |objects|
    ensures DistinctDigests(objects[..i]) && forall o <- objects[..i] :: ObjectPath(o) != ObjectPath(objects[i])
  {
    forall o <- objects[..i] ensures ObjectPath(o) != ObjectPath(objects[i]) {
      var k :| 0 <= k < i && objects[..i][k] == o;
      if ObjectPath(o) == ObjectPath(objects[i]) { SamePrefix(OBJECTS, o.sha256, objects[i].sha256); }
    }
  }

  lemma RecordIsNoObject(codec: Codec, q: Request, r: PreparedRecord, o: PublicObject)
    requires Passes(codec, q) && r in Plan(codec, q).records
    ensures r.relativePath != ObjectPath(o)
  {
    hide Passes;
    var k :| 0 <= k < |q.records| && Plan(codec, q).records[k] == r;
    NamesApart(codec.sha(q.records[k].bytes), o.sha256);
  }

  lemma PutObjectsStep(files: map<string, Bytes>, objects: seq<PublicObject>, i: nat)
    requires i < |objects|
    ensures PutObjects(files, objects[..i + 1]) == PutObjects(files, objects[..i])[ObjectPath(objects[i]) := objects[i].content]
  {
    assert objects[..i + 1][..i] == objects[..i];
  }

  /** A root that holds the two payload directories and these files, all tracked, and is not prepared yet. */
  ghost predicate Staging(root: OutputRoot, files: map<string, Bytes>)
    reads root
  {
    && root.Valid() && !root.prepared && !root.published
    && root.payload == Tree({"objects", "records"}, files, {}) && root.files.Keys == files.Keys
  }

  /** Staging one more file of given bytes. */
  method StageBytes(root: OutputRoot, path: string, bytes: Bytes, ghost files: map<string, Bytes>) returns (ok: bool)
    requires Staging(root, files) && path !in files && Creatable(path)
    modifies root`payload, root`files
    ensures ok && Staging(root, files[path := bytes])
  {
    hide SplitOutputRelative, IsPayloadDirectory, WellFormed, Creatable;
    DirectoriesAreCreatable(root, path);
    ok := root.WriteFile(path, bytes);
  }

  /** Staging one more copy of an intact source. */
  method StageCopy(root: OutputRoot, path: string, source: Bytes, size: nat, digest: string, ghost files: map<string, Bytes>)
    returns (ok: bool)
    requires Staging(root, files) && path !in files && Creatable(path)
    requires |source| == size && root.codec.sha(source) == digest
    modifies root`payload, root`files
    ensures ok && Staging(root, files[path := source])
  {
    hide SplitOutputRelative, IsPayloadDirectory, WellFormed, Creatable;
    DirectoriesAreCreatable(root, path);
    ok := root.CopyFile(path, source, size, digest);
  }

  method StageRecords(root: OutputRoot, p: Preflight, ghost q: Request) returns (ok: bool)
    requires root.codec.Lawful() && Passes(root.codec, q) && p == Plan(root.codec, q) && Staging(root, map[])
    modifies root`payload, root`files
    ensures ok && Staging(root, PutRecords(map[], p.records))
  {
    hide Passes, Codec.Lawful, PutRecords, Creatable, Staging;
    PutNothing();
    for i := 0 to |p.records|
      invariant Staging(root, PutRecords(map[], p.records[..i]))
    {
      NextRecordIsNew(root.codec, q, i);
      PlannedRecord(root.codec, q, i);
      ok := StageBytes(root, p.records[i].relativePath, p.records[i].bytes, PutRecords(map[], p.records[..i]));
      if !ok { return; }
    }
    assert p.records[..|p.records|] == p.records;
    ok := true;
  }

  lemma PutNothing()
    ensures PutRecords(map[], []) == map[]
  {}

  lemma PlannedRecord(codec: Codec, q: Request, i: nat)
    requires codec.Lawful() && Passes(codec, q) && i < |Plan(codec, q).records|
    ensures Creatable(Plan(codec, q).records[i].relativePath)
  {
    hide Passes, Codec.Lawful, Creatable;
    var e := RecordEntry(codec, q.records[i]);
    RecordIsCollected(codec, q, i);
    PlannedPathsAreCreatable(codec, q, e);
  }

  lemma PlannedObject(codec: Codec, q: Request, i: nat)
    requires codec.Lawful() && Passes(codec, q) && i < |Distinct(q.objects)|
    ensures Creatable(ObjectPath(Distinct(q.objects)[i])) && ObjectIntact(codec, Distinct(q.objects)[i])
  {
    hide Codec.Lawful, Creatable, ManifestShape, Sum, ClaimsHold, RecordsDiffer, ObjectsAgree, Manifest, Distinct, Collected,
         RecordTotal, ObjectTotal, BundleBytes, ManifestBytes;
    var o := Distinct(q.objects)[i];
    assert o in Distinct(q.objects) && o in q.objects;
    ObjectIsCollected(codec, q, o);
    PlannedPathsAreCreatable(codec, q, ObjectEntry(o));
  }

  lemma DirectoriesAreCreatable(root: OutputRoot, path: string)
    requires root.directories == {"objects", "records"} && root.payload.directories == {"objects", "records"}
    requires path !in root.payload.files && path !in root.files && Creatable(path)
    ensures root.CanCreate(path)
  {}

  method StageObjects(root: OutputRoot, p: Preflight, ghost q: Request) returns (ok: bool)
    requires root.codec.Lawful() && Passes(root.codec, q) && p == Plan(root.codec, q)
    requires Staging(root, PutRecords(map[], p.records))
    modifies root`payload, root`files
    ensures ok && Staging(root, PutObjects(PutRecords(map[], p.records), p.objects))
  {
    hide Passes, Codec.Lawful, PutRecords, PutObjects, Distinct, Creatable, Staging;
    ghost var records := PutRecords(map[], p.records);
    PutNoObjects(records);
    for i := 0 to |p.objects|
      invariant Staging(root, PutObjects(records, p.objects[..i]))
    {
      var o := p.objects[i];
      NextObjectIsNew(root.codec, q, i);
      PlannedObject(root.codec, q, i);
      ok := StageCopy(root, OBJECTS + o.sha256, o.content, o.size, o.sha256, PutObjects(records, p.objects[..i]));
      if !ok { return; }
    }
    assert p.objects[..|p.objects|] == p.objects;
    ok := true;
  }

  lemma PutNoObjects(files: map<string, Bytes>)
    ensures PutObjects(files, []) == files
  {}

  /** The two payload directories of a new root. */
  method CreateStaged(codec: Codec) returns (root: OutputRoot)
    ensures fresh(root) && root.codec == codec && Staging(root, map[])
  {
    hide Codec.Lawful;
    root := new OutputRoot(codec);
    assert SafeComponent("objects") && SafeComponent("records") && "objects" != "records";
    var ok := root.CreateDirectory("objects");
    ok := root.CreateDirectory("records");
  }

  method StageBundle(root: OutputRoot, p: Preflight, ghost q: Request) returns (ok: bool)
    requires root.codec.Lawful() && Passes(root.codec, q) && p == Plan(root.codec, q) && Staging(root, map[])
    modifies root`payload, root`files
    ensures ok && Staging(root, BundleTree(p).files)
  {
    hide Passes, Codec.Lawful, PutRecords, PutObjects, Distinct, Plan, Creatable, Staging;
    FixedNamesAreNew(root.codec, q);
    ok := StageRecords(root, p, q);
    if !ok { return; }
    ok := StageObjects(root, p, q);
    if !ok { return; }
    ghost var files := PutObjects(PutRecords(map[], p.records), p.objects);
    ok := StageBytes(root, VERIFIED_INPUT_NAME, p.bundleBytes, files);
    if !ok { return; }
    ok := StageBytes(root, TRANSFER_MANIFEST_NAME, p.manifestBytes, files[VERIFIED_INPUT_NAME := p.bundleBytes]);
  }

  /** Writes a preflighted bundle. `taken` and `takenLater` say whether another process has bound the final name when
      the root is created and when the payload is renamed. */
  method WritePreflightBundle(
    codec: Codec, p: Preflight, ghost q: Request, taken: bool, authorized: bool, claimed: bool, takenLater: bool)
    returns (r: Publication, output: Option<Tree>)
    requires codec.Lawful() && Passes(codec, q) && p == Plan(codec, q)
    ensures r == if taken then Failed else if !authorized || !claimed then Cancelled else if takenLater then Failed else Published
    ensures output == if r == Published then Some(BundleTree(p)) else None
  {
    hide *;
    if taken { return Failed, None; }
    var root := CreateStaged(codec);
    var ok := StageBundle(root, p, q);
    if !ok { return Failed, None; }
    StagedIs(root, p);
    WrittenTreeIsAccepted(codec, q);
    var reopened := VerifyTransferredBundleRoot(codec, root.payload);
    if reopened.None? || reopened.value.verifiedInput != p.verified { return Failed, None; }
    ok := root.Prepare();
    if !ok { return Failed, None; }
    if !authorized { return Cancelled, root.output; }
    r := root.Publish(claimed, takenLater);
    output := root.output;
  }

  lemma StagedIs(root: OutputRoot, p: Preflight)
    requires Staging(root, BundleTree(p).files)
    ensures root.payload == BundleTree(p) && root.Valid() && !root.prepared && !root.published && root.payload.files.Keys == root.files.Keys
    ensures root.output.None?
  {}

  lemma FixedNamesAreNew(codec: Codec, q: Request)
    requires codec.Lawful() && Passes(codec, q)
    ensures var files := PutObjects(PutRecords(map[], Plan(codec, q).records), Plan(codec, q).objects);
      VERIFIED_INPUT_NAME !in files && TRANSFER_MANIFEST_NAME !in files
    ensures Creatable(VERIFIED_INPUT_NAME) && Creatable(TRANSFER_MANIFEST_NAME)
    ensures VERIFIED_INPUT_NAME != TRANSFER_MANIFEST_NAME
  {
    hide Passes, Codec.Lawful, PutRecords, PutObjects, Distinct, Creatable;
    WrittenOnce(codec, q);
    ManifestNameSplits();
    InputIsCollected(codec, q);
    PlannedPathsAreCreatable(codec, q, InputRecordEntry(codec, q));
    var p := Plan(codec, q);
    forall r <- p.records ensures r.relativePath != VERIFIED_INPUT_NAME && r.relativePath != TRANSFER_MANIFEST_NAME {
      var k :| 0 <= k < |p.records| && p.records[k] == r;
      NamesApart(codec.sha(q.records[k].bytes), "");
    }
    forall o <- p.objects ensures ObjectPath(o) != VERIFIED_INPUT_NAME && ObjectPath(o) != TRANSFER_MANIFEST_NAME {
      NamesApart("", o.sha256);
    }
    NamesApart("", "");
  }

  /** Preflight, write and publish: a published tree is one the verifier accepts, with the record that is returned. */
  method WriteVerifiedBundle(codec: Codec, q: Request, taken: bool, authorized: bool, claimed: bool, takenLater: bool)
    returns (r: Option<InputBundle>, output: Option<Tree>)
    requires codec.Lawful()
    ensures output.Some? <==> Passes(codec, q) && !taken && authorized && claimed && !takenLater
    ensures r.Some? <==> output.Some?
    ensures output.Some? ==> VerifyRoot(codec, output.value).Some? && VerifyRoot(codec, output.value).value.verifiedInput == r.value
    ensures output.Some? ==>
      && SaysClaims(q, r.value, VerifyRoot(codec, output.value).value.manifest) && ListsObjects(q, r.value)
      && ListsRecords(codec, q, VerifyRoot(codec, output.value).value.manifest) && HoldsPayload(codec, q, output.value)
  {
    hide *;
    var p := PreflightVerifiedBundle(codec, q);
    if p.None? { return None, None; }
    var outcome;
    outcome, output := WritePreflightBundle(codec, p.value, q, taken, authorized, claimed, takenLater);
    WrittenTreeIsAccepted(codec, q);
    WrittenBundleSaysTheRequest(codec, q);
    r := if outcome == Published then Some(p.value.verified) else None;
  }

  // ----- Exporting an accepted bundle

  /** An accepted root has both payload directories. */
  lemma AcceptedDirectories(codec: Codec, t: Tree)
    requires VerifyRoot(codec, t).Some? && WellFormed(t)
    ensures t.directories == {"objects", "records"} && t.others == {}
  {
    hide VerifyRoot, ManifestedObjects, VerifiedObjects, EntryMatches, ManifestShape, ValidInputObject, Sum;
    Accepted(codec, t, VerifyRoot(codec, t).value);
    var (m, input) := (VerifyRoot(codec, t).value.manifest, VerifyRoot(codec, t).value.verifiedInput);
    var ref := m.records[0];
    assert ref in m.records;
    var e := EntryOf(m.entries, ref.relativePath).value;
    EntryHasDirectory(codec, t, m, e, "records", RECORDS);
    var o := input.objects[0];
    assert o in input.objects;
    var f := ObjectHasEntry(m, input, o);
    EntryHasDirectory(codec, t, m, f, "objects", OBJECTS);
  }

  lemma ObjectHasEntry(m: TransferManifest, input: InputBundle, o: InputObject) returns (e: TransferEntry)
    requires ManifestedObjects(m) == VerifiedObjects(input) && o in input.objects
    ensures e in m.entries && StartsWith(e.relativePath, OBJECTS)
  {
    assert (o.relativePath, o.size, o.sha256) in VerifiedObjects(input);
    e :| e in m.entries && StartsWith(e.relativePath, OBJECTS) && (e.relativePath, e.size, e.sha256) == (o.relativePath, o.size, o.sha256);
  }

  lemma EntryHasDirectory(codec: Codec, t: Tree, m: TransferManifest, e: TransferEntry, directory: string, prefix: string)
    requires TreeMatches(codec, t, m) && WellFormed(t) && e in m.entries
    requires prefix == directory + "/" && '/' !in directory && StartsWith(e.relativePath, prefix)
    ensures directory in t.directories
  {
    hide SplitOutputRelative, EnumerateTree;
    assert EntryMatches(codec, t, e);
    var name := e.relativePath[|prefix|..];
    assert e.relativePath == directory + "/" + name;
    SplitOnceAt(directory, name);
  }

  /** What an accepted root's files are: the manifest's entries and the manifest. */
  lemma AcceptedFiles(codec: Codec, t: Tree, e: TransferEntry)
    requires VerifyRoot(codec, t).Some? && e in VerifyRoot(codec, t).value.manifest.entries
    ensures EntryMatches(codec, t, e) && Creatable(e.relativePath)
  {
    hide VerifyRoot, ValidTransferManifest, ValidInput, ContentsAgree, ListedName, SplitOutputRelative;
    Accepted(codec, t, VerifyRoot(codec, t).value);
    var m := VerifyRoot(codec, t).value.manifest;
    assert EntryMatches(codec, t, e) && ListedName(e.relativePath);
    ListedIsCreatable(e.relativePath);
  }

  lemma ListedIsCreatable(path: string)
    requires ListedName(path) && SplitOutputRelative(path).Some?
    ensures Creatable(path)
  {
    hide SafeRelative, SafeComponent;
    LongerThanDirectory(path);
    SplitAgrees(path);
  }

  /** The files of the first `i` entries. */
  function CopiedFiles(t: Tree, entries: seq<TransferEntry>): map<string, Bytes>
    requires forall e <- entries :: e.relativePath in t.files
  {
    map p <- EntryPaths(entries) | p in t.files :: t.files[p]
  }

  lemma CopiedNothing(t: Tree)
    ensures CopiedFiles(t, []) == map[]
  {}

  lemma NextEntryIsNew(t: Tree, entries: seq<TransferEntry>, i: nat)
    requires i < |entries| && Ascending(EntryPaths(entries))
    requires forall e <- entries :: e.relativePath in t.files
    ensures var p := entries[i].relativePath;
      && p !in CopiedFiles(t, entries[..i])
      && CopiedFiles(t, entries[..i + 1]) == CopiedFiles(t, entries[..i])[p := t.files[p]]
  {
    var p := entries[i].relativePath;
    var (before, after) := (EntryPaths(entries[..i]), EntryPaths(entries[..i + 1]));
    forall q <- before ensures q != p {
      var k :| 0 <= k < i && before[k] == q;
      AscendingIsInjectiveAt(EntryPaths(entries), k, i);
    }
    assert after == before + [p];
  }

  lemma AscendingIsInjectiveAt(names: seq<string>, k: nat, i: nat)
    requires Ascending(names) && k < i < |names|
    ensures names[k] != names[i]
  {
    LessIsStrict(names[k], names[i]);
  }

  /** All entries and the manifest are the whole tree. */
  lemma AllCopied(codec: Codec, t: Tree, v: Transferred)
    requires VerifyRoot(codec, t) == Some(v)
    requires forall e <- v.manifest.entries :: e.relativePath in t.files
    ensures CopiedFiles(t, v.manifest.entries)[TRANSFER_MANIFEST_NAME := v.manifestBytes] == t.files
    ensures TRANSFER_MANIFEST_NAME !in CopiedFiles(t, v.manifest.entries)
    ensures Ascending(EntryPaths(v.manifest.entries))
  {
    hide VerifyRoot, Sum, ContentsAgree, EntryMatches, ValidInput, ListedName, Ascending, SafeRelative;
    Accepted(codec, t, v);
    var m := v.manifest;
    assert t.files.Keys == Expected(m);
    forall p <- EntryPaths(m.entries) ensures p != TRANSFER_MANIFEST_NAME {
      InPaths(m.entries, p);
      var e :| e in m.entries && e.relativePath == p;
      assert ValidTransferEntry(e);
    }
    CopiedKeys(t, m.entries);
  }

  lemma CopiedKeys(t: Tree, entries: seq<TransferEntry>)
    requires forall e <- entries :: e.relativePath in t.files
    ensures CopiedFiles(t, entries).Keys == set p <- EntryPaths(entries)
  {
    forall p <- EntryPaths(entries) ensures p in t.files {
      InPaths(entries, p);
    }
  }

  method StageCopies(root: OutputRoot, t: Tree, v: Transferred) returns (ok: bool)
    requires VerifyRoot(root.codec, t) == Some(v) && WellFormed(t) && Staging(root, map[])
    modifies root`payload, root`files
    ensures ok && Staging(root, t.files)
  {
    hide VerifyRoot, Creatable, SplitOutputRelative, SafeRelative, CopiedFiles, Ascending, EntryPaths, Staging, WellFormed;
    CopiedNothing(t);
    forall e <- v.manifest.entries ensures EntryMatches(root.codec, t, e) && Creatable(e.relativePath) {
      AcceptedFiles(root.codec, t, e);
    }
    AllCopied(root.codec, t, v);
    var entries := v.manifest.entries;
    for i := 0 to |entries|
      invariant Staging(root, CopiedFiles(t, entries[..i]))
    {
      var e := entries[i];
      NextEntryIsNew(t, entries, i);
      assert EntryMatches(root.codec, t, e);
      ok := StageCopy(root, e.relativePath, t.files[e.relativePath], e.size, e.sha256, CopiedFiles(t, entries[..i]));
      if !ok { return; }
    }
    assert entries[..|entries|] == entries;
    ManifestNameSplits();
    ok := StageBytes(root, TRANSFER_MANIFEST_NAME, v.manifestBytes, CopiedFiles(t, entries));
  }

  /** Exports an accepted bundle: what is published is the same tree, byte for byte, and it verifies to the same result. */
  method ExportPreflightBundle(codec: Codec, t: Tree, v: Transferred, taken: bool, takenLater: bool)
    returns (r: Publication, exported: Option<Transferred>, output: Option<Tree>)
    requires VerifyRoot(codec, t) == Some(v) && WellFormed(t)
    ensures r == if taken || takenLater then Failed else Published
    ensures output == if r == Published then Some(t) else None
    ensures exported == if r == Published then Some(v) else None
  {
    hide *;
    if taken { return Failed, None, None; }
    var root := CreateStaged(codec);
    var ok := StageCopies(root, t, v);
    if !ok { return Failed, None, None; }
    CopyIsSame(root, t);
    var reopened := VerifyTransferredBundleRoot(codec, root.payload);
    if reopened.None? { return Failed, None, None; }
    ok := root.Prepare();
    if !ok { return Failed, None, None; }
    r := root.Publish(true, takenLater);
    output := root.output;
    exported := if r == Published then reopened else None;
  }

  lemma CopyIsSame(root: OutputRoot, t: Tree)
    requires Staging(root, t.files) && VerifyRoot(root.codec, t).Some? && WellFormed(t)
    ensures root.payload == t && root.Valid() && !root.prepared && !root.published && root.payload.files.Keys == root.files.Keys
    ensures root.output.None?
  {
    hide VerifyRoot;
    AcceptedDirectories(root.codec, t);
  }
}
