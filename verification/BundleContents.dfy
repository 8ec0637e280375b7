/** What a published bundle says about the request it was made for, in the documents' own fields and paths. */
module BundleContents {
  import opened Wrappers
  import opened Text
  import opened JsonScan
  import opened Inventory
  import opened TransferBundle
  import opened BundleWriter

  /** The claims of the request, each in its own field. */
  ghost predicate SaysClaims(q: Request, input: InputBundle, m: TransferManifest) {
    && input.schemaVersion == 1 && input.sourceKind == q.sourceKind
    && input.sourceSha256 == q.sourceSha256 && input.compatibilityInputSha256 == q.compatibilityInputSha256
    && m.schemaVersion == 1 && m.kind == "verified_input"
    && m.sourceCommit == q.sourceCommit && m.sourceTreeSha256 == q.sourceTreeSha256
  }

  predicate StandsFor(r: InputObject, o: PublicObject) {
    && r.sourceUrl == o.sourceUrl && r.size == o.size && r.sha256 == o.sha256
    && r.relativePath == "objects/" + o.sha256
  }

  /** The record lists the objects of the request and no others. */
  ghost predicate ListsObjects(q: Request, input: InputBundle) {
    && (forall o <- q.objects :: exists r <- input.objects :: StandsFor(r, o))
    && (forall r <- input.objects :: exists o <- q.objects :: StandsFor(r, o))
  }

  predicate RefersTo(codec: Codec, ref: TransferRecordRef, r: BundleRecord) {
    && ref.role == r.role && ref.sha256 == codec.sha(r.bytes)
    && ref.relativePath == "records/" + codec.sha(r.bytes)
  }

  /** The manifest refers to the records of the request, each under its role, and to no others. */
  ghost predicate ListsRecords(codec: Codec, q: Request, m: TransferManifest) {
    && (forall r <- q.records :: exists ref <- m.records :: RefersTo(codec, ref, r))
    && (forall ref <- m.records :: exists r <- q.records :: RefersTo(codec, ref, r))
  }

  /** The files: each record's bytes under its digest, the content of the first object of each digest under that digest,
      the two documents, and nothing else. */
  ghost predicate HoldsPayload(codec: Codec, q: Request, t: Tree) {
    && (forall r <- q.records :: "records/" + codec.sha(r.bytes) in t.files && t.files["records/" + codec.sha(r.bytes)] == r.bytes)
    && (forall o <- q.objects :: "objects/" + o.sha256 in t.files)
    && (forall k | 0 <= k < |q.objects| && IsFirst(q.objects, k) ::
          t.files["objects/" + q.objects[k].sha256] == q.objects[k].content)
    && (forall path <- t.files ::
          || path == "verified-input-bundle-v1.json" || path == "transfer-manifest-v1.json"
          || (exists r <- q.records :: path == "records/" + codec.sha(r.bytes))
          || (exists o <- q.objects :: path == "objects/" + o.sha256))
  }

  predicate IsFirst(objects: seq<PublicObject>, k: nat)
    requires k < |objects|
  {
    forall j | 0 <= j < k :: objects[j].sha256 != objects[k].sha256
  }

  lemma {:induction false} FirstIsKept(objects: seq<PublicObject>, k: nat)
    requires k < |objects| && IsFirst(objects, k)
    ensures objects[k] in Distinct(objects)
  {
    var (init, last) := (objects[..|objects| - 1], objects[|objects| - 1]);
    if k < |objects| - 1 {
      FirstIsKept(init, k);
    } else {
      forall o <- Distinct(init) ensures o.sha256 != last.sha256 {
        var j :| 0 <= j < |init| && init[j] == o;
        assert objects[j] == o;
      }
      assert (Distinct(init) + [last])[|Distinct(init)|] == last;
    }
  }

  lemma KeptFor(objects: seq<PublicObject>, o: PublicObject) returns (d: PublicObject)
    requires o in objects
    ensures d in Distinct(objects) && d in objects && d.sha256 == o.sha256
  {
    hide Distinct;
    assert HasDigest(Distinct(objects), o.sha256);
    d :| d in Distinct(objects) && d.sha256 == o.sha256;
  }

  lemma ClaimsAreSaid(codec: Codec, q: Request)
    ensures SaysClaims(q, Bundle(q), Manifest(codec, q))
  {}

  lemma ObjectsAreListed(q: Request)
    requires ObjectsAgree(q.objects)
    ensures ListsObjects(q, Bundle(q))
  {
    hide Distinct, Bundle, ObjectsAgree;
    forall o <- q.objects ensures exists r <- Bundle(q).objects :: StandsFor(r, o) {
      var d := KeptFor(q.objects, o);
      SameFacts(q.objects, d, o);
      ObjectIsListed(q, d);
      assert StandsFor(ObjectRecord(d), o);
    }
    forall r <- Bundle(q).objects ensures exists o <- q.objects :: StandsFor(r, o) {
      var o := SourceOf(q, r);
      assert StandsFor(r, o);
    }
  }

  lemma SameFacts(objects: seq<PublicObject>, a: PublicObject, b: PublicObject)
    requires ObjectsAgree(objects) && a in objects && b in objects && a.sha256 == b.sha256
    ensures a.sourceUrl == b.sourceUrl && a.size == b.size
  {}

  lemma RecordsAreListed(codec: Codec, q: Request)
    ensures ListsRecords(codec, q, Manifest(codec, q))
  {
    hide Collected, SortBy;
    var (m, refs) := (Manifest(codec, q), Map(r => RecordRef(codec, r), q.records));
    assert m.records == SortBy(refs, RoleOf);
    forall r <- q.records ensures exists ref <- m.records :: RefersTo(codec, ref, r) {
      var k :| 0 <= k < |q.records| && q.records[k] == r;
      assert refs[k] in m.records && RefersTo(codec, refs[k], r);
    }
    forall ref <- m.records ensures exists r <- q.records :: RefersTo(codec, ref, r) {
      assert ref in refs;
      var k :| 0 <= k < |refs| && refs[k] == ref;
      assert RefersTo(codec, ref, q.records[k]);
    }
  }

  lemma PayloadIsHeld(codec: Codec, q: Request)
    requires Passes(codec, q)
    ensures HoldsPayload(codec, q, BundleTree(Plan(codec, q)))
  {
    hide Passes, BundleBytes, ManifestBytes, Distinct, PutRecords, PutObjects;
    var p := Plan(codec, q);
    var t := BundleTree(p);
    WrittenOnce(codec, q);
    forall r <- q.records ensures RecordPath(codec, r) in t.files && t.files[RecordPath(codec, r)] == r.bytes {
      var k :| 0 <= k < |q.records| && q.records[k] == r;
      NamesApart(codec.sha(r.bytes), "");
      assert p.records[k] in p.records && RecordPath(codec, r)[0] == 'r';
    }
    forall o <- Distinct(q.objects) ensures ObjectPath(o) in t.files && t.files[ObjectPath(o)] == o.content {
      NamesApart("", o.sha256);
      assert o in p.objects;
    }
    forall o <- q.objects ensures ObjectPath(o) in t.files {
      var d := KeptFor(q.objects, o);
      assert ObjectPath(d) == ObjectPath(o);
    }
    forall k | 0 <= k < |q.objects| && IsFirst(q.objects, k) ensures t.files[ObjectPath(q.objects[k])] == q.objects[k].content {
      FirstIsKept(q.objects, k);
    }
    forall path <- t.files
      ensures path == VERIFIED_INPUT_NAME || path == TRANSFER_MANIFEST_NAME
        || (exists r <- q.records :: path == RecordPath(codec, r)) || (exists o <- q.objects :: path == ObjectPath(o))
    {
      FileHasSource(codec, q, path);
    }
  }

  lemma FileHasSource(codec: Codec, q: Request, path: string)
    requires Passes(codec, q) && path in BundleTree(Plan(codec, q)).files
    ensures path == VERIFIED_INPUT_NAME || path == TRANSFER_MANIFEST_NAME
      || (exists r <- q.records :: path == RecordPath(codec, r)) || (exists o <- q.objects :: path == ObjectPath(o))
  {
    hide Passes, BundleBytes, ManifestBytes, Distinct, PutRecords, PutObjects;
    if path != TRANSFER_MANIFEST_NAME {
      var e := FileIsCollected(codec, q, path);
      var k :| 0 <= k < |Collected(codec, q)| && Collected(codec, q)[k] == e;
      CollectedHasSource(codec, q, k);
    }
  }

  lemma CollectedHasSource(codec: Codec, q: Request, k: nat)
    requires k < |Collected(codec, q)|
    ensures var path := Collected(codec, q)[k].relativePath;
      || path == VERIFIED_INPUT_NAME
      || (exists r <- q.records :: path == RecordPath(codec, r)) || (exists o <- q.objects :: path == ObjectPath(o))
  {
    hide Distinct, BundleBytes;
    var (n, objects) := (|q.records|, Distinct(q.objects));
    if k < n {
      assert Collected(codec, q)[k] == RecordEntry(codec, q.records[k]) && q.records[k] in q.records;
    } else if k < n + |objects| {
      assert Collected(codec, q)[k] == ObjectEntry(objects[k - n]) && objects[k - n] in objects && objects[k - n] in q.objects;
    } else {
      assert Collected(codec, q)[k] == InputRecordEntry(codec, q);
    }
  }

  /** All of it together, of what the verifier reads from the written tree. */
  lemma WrittenBundleSaysTheRequest(codec: Codec, q: Request)
    requires codec.Lawful() && Passes(codec, q)
    ensures var (t, r) := (BundleTree(Plan(codec, q)), VerifyRoot(codec, BundleTree(Plan(codec, q))));
      && r.Some? && SaysClaims(q, r.value.verifiedInput, r.value.manifest)
      && ListsObjects(q, r.value.verifiedInput) && ListsRecords(codec, q, r.value.manifest) && HoldsPayload(codec, q, t)
  {
    assert ObjectsAgree(q.objects);
    hide *;
    WrittenTreeIsAccepted(codec, q);
    VerifiedIsBundle(codec, q);
    ClaimsAreSaid(codec, q);
    ObjectsAreListed(q);
    RecordsAreListed(codec, q);
    PayloadIsHeld(codec, q);
  }
}
