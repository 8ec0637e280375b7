/** Preflight validates the two documents it has just made. Here it is settled which requests those validations turn
    away: requests without a record, and requests with an object from a bad address. Nothing else can fail there. */
module PreflightRules {
  import opened Wrappers
  import opened Text
  import opened JsonScan
  import opened Inventory
  import opened TransferBundle
  import opened BundleWriter

  // ----- Sorted output

  ghost predicate KeysAscend<T(!new)>(xs: seq<T>, key: T -> string) {
    forall i, j | 0 <= i < j < |xs| :: Less(key(xs[i]), key(xs[j]))
  }

  ghost predicate KeysDiffer<T(!new)>(xs: seq<T>, key: T -> string) {
    forall i, j | 0 <= i < j < |xs| :: key(xs[i]) != key(xs[j])
  }

  lemma NotLess(a: string, b: string)
    requires !Less(a, b) && a != b
    ensures Less(b, a)
  {
    CompareZero(a, b);
    CompareFlips(a, b);
  }

  lemma {:induction false} InsertAscends<T(!new)>(x: T, xs: seq<T>, key: T -> string)
    requires KeysAscend(xs, key) && forall y <- xs :: key(y) != key(x)
    ensures KeysAscend(Insert(x, xs, key), key)
  {
    var r := Insert(x, xs, key);
    if xs == [] {
    } else if Less(key(x), key(xs[0])) {
      forall j | 0 < j < |r| ensures Less(key(r[0]), key(r[j])) {
        if j > 1 { LessTransitive(key(x), key(xs[0]), key(xs[j - 1])); }
      }
    } else {
      NotLess(key(x), key(xs[0]));
      var rest := Insert(x, xs[1..], key);
      InsertAscends(x, xs[1..], key);
      forall j | 0 < j < |r| ensures Less(key(r[0]), key(r[j])) {
        assert r[j] == rest[j - 1] && rest[j - 1] in rest;
        if rest[j - 1] in xs[1..] {
          var k :| 0 <= k < |xs[1..]| && xs[1..][k] == rest[j - 1];
          assert xs[k + 1] == r[j];
        }
      }
      forall i, j | 0 < i < j < |r| ensures Less(key(r[i]), key(r[j])) {
        assert r[i] == rest[i - 1] && r[j] == rest[j - 1];
      }
    }
  }

  lemma {:induction false} SortAscends<T(!new)>(xs: seq<T>, key: T -> string)
    requires KeysDiffer(xs, key)
    ensures KeysAscend(SortBy(xs, key), key)
  {
    if xs != [] {
      var (init, last) := (xs[..|xs| - 1], xs[|xs| - 1]);
      SortAscends(init, key);
      forall y <- SortBy(init, key) ensures key(y) != key(last) {
        assert y in init;
        var k :| 0 <= k < |init| && init[k] == y;
        assert xs[k] == y;
      }
      InsertAscends(last, SortBy(init, key), key);
    }
  }

  lemma {:induction false} SumOfInserted<T(!new)>(x: T, xs: seq<T>, key: T -> string, size: T -> nat)
    ensures Sum(Map(size, Insert(x, xs, key))) == size(x) + Sum(Map(size, xs))
  {
    var sizes := Map(size, Insert(x, xs, key));
    if xs == [] || Less(key(x), key(xs[0])) {
      assert sizes[1..] == Map(size, xs);
    } else {
      SumOfInserted(x, xs[1..], key, size);
      assert sizes[1..] == Map(size, Insert(x, xs[1..], key));
      assert Map(size, xs)[1..] == Map(size, xs[1..]);
    }
  }

  /** Sorting keeps the total. */
  lemma {:induction false} SumOfSorted<T(!new)>(xs: seq<T>, key: T -> string, size: T -> nat)
    ensures Sum(Map(size, SortBy(xs, key))) == Sum(Map(size, xs))
  {
    if xs != [] {
      var (init, last) := (xs[..|xs| - 1], xs[|xs| - 1]);
      SumOfSorted(init, key, size);
      SumOfInserted(last, SortBy(init, key), key, size);
      assert Map(size, xs) == Map(size, init) + [size(last)];
      SumAppend(Map(size, init), [size(last)]);
    }
  }

  lemma {:induction false} PrefixKeepsOrder(prefix: string, a: string, b: string)
    ensures Less(prefix + a, prefix + b) <==> Less(a, b)
  {
    if prefix == [] {
      assert prefix + a == a && prefix + b == b;
    } else {
      assert (prefix + a)[1..] == prefix[1..] + a && (prefix + b)[1..] == prefix[1..] + b;
      PrefixKeepsOrder(prefix[1..], a, b);
    }
  }

  // ----- What the plan's paths are

  lemma PayloadChars(directory: string, digest: string)
    requires IsPayloadDirectory(directory) && IsSha256Hex(digest)
    ensures forall c <- directory + "/" + digest :: c != '\\' && !IsControl(c)
  {
    var path := directory + "/" + digest;
    forall c <- path ensures c != '\\' && !IsControl(c) {
      var k :| 0 <= k < |path| && path[k] == c;
      if k > |directory| { assert digest[k - |directory| - 1] == c; }
    }
  }

  lemma PayloadIsSafe(directory: string, digest: string)
    requires IsPayloadDirectory(directory) && IsSha256Hex(digest)
    ensures SafeRelative(directory + "/" + digest)
  {
    hide Split, IsControl;
    PayloadChars(directory, digest);
    HexHasNoSlash(digest);
    SplitAtSlash(directory, digest);
    NoSlash(directory);
    NoSlash(digest);
    assert (directory + "/" + digest)[0] == directory[0];
  }

  lemma HexHasNoSlash(digest: string)
    requires IsSha256Hex(digest)
    ensures '/' !in digest && digest != "" && digest != "." && digest != ".."
  {}

  lemma InputPathIsSafe()
    ensures SafeRelative(VERIFIED_INPUT_NAME)
  {
    InputNameIsSafe();
    NoSlash(VERIFIED_INPUT_NAME);
    assert VERIFIED_INPUT_NAME[0] == 'v';
  }

  function PathAt(codec: Codec, q: Request, k: nat): string
    requires k < |Collected(codec, q)|
  {
    var objects := Distinct(q.objects);
    if k < |q.records| then RECORDS + codec.sha(q.records[k].bytes)
    else if k < |q.records| + |objects| then OBJECTS + objects[k - |q.records|].sha256
    else VERIFIED_INPUT_NAME
  }

  lemma CollectedAt(codec: Codec, q: Request, k: nat)
    requires k < |Collected(codec, q)|
    ensures Collected(codec, q)[k].relativePath == PathAt(codec, q, k)
  {
    hide Distinct, BundleBytes;
    var (n, objects) := (|q.records|, Distinct(q.objects));
    if k < n {
      assert Collected(codec, q)[k] == RecordEntry(codec, q.records[k]);
    } else if k < n + |objects| {
      assert Collected(codec, q)[k] == ObjectEntry(objects[k - n]);
    } else {
      assert Collected(codec, q)[k] == InputRecordEntry(codec, q);
    }
  }

  /** Records that differ and one object a digest: no path is collected twice. */
  lemma CollectedPathsDiffer(codec: Codec, q: Request)
    requires RecordsDiffer(codec, q.records)
    ensures KeysDiffer(Collected(codec, q), PathOf)
  {
    hide Distinct, BundleBytes, Collected;
    DistinctDiffer(q.objects);
    var all := Collected(codec, q);
    forall i, j | 0 <= i < j < |all| ensures all[i].relativePath != all[j].relativePath {
      CollectedAt(codec, q, i);
      CollectedAt(codec, q, j);
      PathsDiffer(codec, q, i, j);
    }
  }

  lemma CollectedCount(codec: Codec, q: Request)
    ensures |Collected(codec, q)| == |q.records| + |Distinct(q.objects)| + 1
  {}

  lemma PathsDiffer(codec: Codec, q: Request, i: nat, j: nat)
    requires i < j < |Collected(codec, q)| && RecordsDiffer(codec, q.records) && DistinctDigests(Distinct(q.objects))
    ensures PathAt(codec, q, i) != PathAt(codec, q, j)
  {
    hide Distinct, Collected;
    CollectedCount(codec, q);
    var (n, objects) := (|q.records|, Distinct(q.objects));
    NamesApart(if i < n then codec.sha(q.records[i].bytes) else "", if n <= j < n + |objects| then objects[j - n].sha256 else "");
    if PathAt(codec, q, i) == PathAt(codec, q, j) {
      if j < n {
        SamePrefix(RECORDS, codec.sha(q.records[i].bytes), codec.sha(q.records[j].bytes));
      } else if n <= i && j < n + |objects| {
        SamePrefix(OBJECTS, objects[i - n].sha256, objects[j - n].sha256);
      } else if n <= i {
        NamesApart("", objects[i - n].sha256);
      }
    }
  }

  lemma ManifestAscends(codec: Codec, q: Request)
    requires RecordsDiffer(codec, q.records)
    ensures Ascending(EntryPaths(Manifest(codec, q).entries)) && Ascending(Roles(Manifest(codec, q).records))
  {
    hide Collected, SortBy;
    CollectedPathsDiffer(codec, q);
    SortAscends(Collected(codec, q), PathOf);
    var refs := Map(r => RecordRef(codec, r), q.records);
    SortAscends(refs, RoleOf);
  }

  lemma RecordAscends(q: Request)
    ensures Ascending(ObjectPaths(Bundle(q).objects))
  {
    hide Distinct, SortBy;
    DistinctDiffer(q.objects);
    var sorted := SortBy(Distinct(q.objects), DigestOf);
    SortAscends(Distinct(q.objects), DigestOf);
    var paths := ObjectPaths(Bundle(q).objects);
    forall i, j | 0 <= i < j < |paths| ensures Less(paths[i], paths[j]) {
      PrefixKeepsOrder(OBJECTS, sorted[i].sha256, sorted[j].sha256);
      assert Less(sorted[i].sha256, sorted[j].sha256);
      assert paths[i] == ObjectPath(sorted[i]) && paths[j] == ObjectPath(sorted[j]);
    }
  }

  // ----- What they add up to

  function SizeOf(e: TransferEntry): nat { e.size }

  function ObjectSizeOf(o: PublicObject): nat { o.size }

  lemma MapLast<S, T>(f: S -> T, xs: seq<S>, x: S)
    ensures Map(f, xs + [x]) == Map(f, xs) + [f(x)]
  {}

  lemma {:induction false} RecordSizes(codec: Codec, records: seq<BundleRecord>)
    ensures Sum(Map(SizeOf, RecordEntries(codec, records))) == RecordTotal(records)
  {
    if records != [] {
      var (init, last) := (records[..|records| - 1], records[|records| - 1]);
      RecordSizes(codec, init);
      SumAppend(Map(SizeOf, RecordEntries(codec, init)), [|last.bytes|]);
      assert RecordEntries(codec, records) == RecordEntries(codec, init) + [RecordEntry(codec, last)];
      MapLast(SizeOf, RecordEntries(codec, init), RecordEntry(codec, last));
    }
  }

  lemma {:induction false} ObjectSizesAre(objects: seq<PublicObject>)
    ensures Sum(Map(ObjectSizeOf, objects)) == ObjectTotal(objects)
  {
    if objects != [] {
      var (init, last) := (objects[..|objects| - 1], objects[|objects| - 1]);
      ObjectSizesAre(init);
      SumAppend(Map(ObjectSizeOf, init), [last.size]);
      assert Map(ObjectSizeOf, objects) == Map(ObjectSizeOf, init) + [last.size];
    }
  }

  /** The manifest's sizes add up to what preflight counted. */
  lemma ManifestTotal(codec: Codec, q: Request)
    ensures Sum(TransferSizes(Manifest(codec, q).entries))
         == RecordTotal(q.records) + ObjectTotal(Distinct(q.objects)) + |BundleBytes(codec, q)|
  {
    hide Distinct, BundleBytes, SortBy, RecordTotal, ObjectTotal, Sum;
    var (all, objects) := (Collected(codec, q), Distinct(q.objects));
    SumOfSorted(all, PathOf, SizeOf);
    assert TransferSizes(Manifest(codec, q).entries) == Map(SizeOf, Manifest(codec, q).entries);
    var (a, b, c) := (Map(SizeOf, RecordEntries(codec, q.records)), Map(ObjectSizeOf, objects), |BundleBytes(codec, q)|);
    assert Map(SizeOf, all) == a + b + [c];
    RecordSizes(codec, q.records);
    ObjectSizesAre(objects);
    SumAppend(a, b);
    SumAppend(a + b, [c]);
    OneSum(c);
  }

  lemma OneSum(n: nat)
    ensures Sum([n]) == n
  {}

  lemma RecordSum(q: Request)
    ensures Sum(ObjectSizes(Bundle(q).objects)) == ObjectTotal(Distinct(q.objects))
  {
    hide Distinct, SortBy, ObjectTotal, Sum;
    var sorted := SortBy(Distinct(q.objects), DigestOf);
    SumOfSorted(Distinct(q.objects), DigestOf, ObjectSizeOf);
    ObjectSizesAre(Distinct(q.objects));
    assert ObjectSizes(Bundle(q).objects) == Map(ObjectSizeOf, sorted);
  }

  // ----- The validations

  /** What preflight checks before it makes a document. */
  predicate Collects(codec: Codec, q: Request) {
    && ClaimsHold(q) && |q.records| + |q.objects| + 1 <= MAX_ENTRIES
    && (forall r <- q.records :: RecordFits(r)) && RecordsDiffer(codec, q.records)
    && (forall o <- q.objects :: ObjectFits(o)) && ObjectsAgree(q.objects) && q.objects != []
    && 0 < |BundleBytes(codec, q)| <= MAX_MANIFEST_BYTES
    && RecordTotal(q.records) + ObjectTotal(Distinct(q.objects)) + |BundleBytes(codec, q)| <= MAX_TOTAL_BYTES
  }

  predicate GoodAddresses(codec: Codec, q: Request) { forall o <- q.objects :: codec.validUrl(o.sourceUrl) }

  lemma {:induction false} DistinctIsShorter(objects: seq<PublicObject>)
    ensures |Distinct(objects)| <= |objects| && (objects != [] ==> Distinct(objects) != [])
  {
    if objects != [] { DistinctIsShorter(objects[..|objects| - 1]); }
  }

  lemma ObjectIsValid(codec: Codec, o: PublicObject)
    requires ObjectFits(o)
    ensures ValidInputObject(codec, ObjectRecord(o)) <==> codec.validUrl(o.sourceUrl)
  {
    hide ValidRelativePath;
    PayloadIsSafe("objects", o.sha256);
    assert "objects" + "/" + o.sha256 == OBJECTS + o.sha256;
  }

  /** Objects with one digest have one address, so the kept ones speak for all. */
  lemma AddressesOfDistinct(codec: Codec, q: Request)
    requires ObjectsAgree(q.objects)
    ensures GoodAddresses(codec, q) <==> forall o <- Distinct(q.objects) :: codec.validUrl(o.sourceUrl)
  {
    hide Distinct;
    if forall o <- Distinct(q.objects) :: codec.validUrl(o.sourceUrl) {
      forall o <- q.objects ensures codec.validUrl(o.sourceUrl) {
        assert HasDigest(Distinct(q.objects), o.sha256);
        var d :| d in Distinct(q.objects) && d.sha256 == o.sha256;
        assert d.sourceUrl == o.sourceUrl;
      }
    }
  }

  lemma RecordObjectsAreValid(codec: Codec, q: Request)
    requires (forall o <- q.objects :: ObjectFits(o)) && ObjectsAgree(q.objects)
    ensures (forall r <- Bundle(q).objects :: ValidInputObject(codec, r)) <==> GoodAddresses(codec, q)
  {
    hide Distinct, ObjectsAgree, ObjectFits, ValidInputObject, Bundle, ObjectRecord, GoodAddresses;
    AddressesOfDistinct(codec, q);
    if forall r <- Bundle(q).objects :: ValidInputObject(codec, r) {
      forall o <- Distinct(q.objects) ensures codec.validUrl(o.sourceUrl) {
        ObjectIsListed(q, o);
        ObjectIsValid(codec, o);
      }
    }
    if GoodAddresses(codec, q) {
      forall r <- Bundle(q).objects ensures ValidInputObject(codec, r) {
        var o := SourceOf(q, r);
        ObjectIsValid(codec, o);
      }
    }
  }

  /** The record is admitted exactly when every address is good. */
  lemma RecordIsAdmitted(codec: Codec, q: Request)
    requires codec.Lawful() && Collects(codec, q)
    ensures InputFromJson(codec, BundleBytes(codec, q)).Some? <==> GoodAddresses(codec, q)
  {
    hide Distinct, ObjectsAgree, RecordsDiffer, RecordFits, ValidInputObject, SortBy, Sum, RecordTotal, ObjectTotal, ValidTransferManifest,
         GoodAddresses, Ascending, ValidSource;
    forall r <- Bundle(q).objects ensures r.size <= MAX_ENTRY_BYTES {
      var o := SourceOf(q, r);
      assert ObjectFits(o);
    }
    assert codec.decodeInput(BundleBytes(codec, q)) == Some(Bundle(q));
    hide Codec.Lawful, ObjectFits;
    RecordObjectsAreValid(codec, q);
    RecordAscends(q);
    RecordSum(q);
    DistinctIsShorter(q.objects);
    SortKeepsLength(Distinct(q.objects), DigestOf);
  }

  lemma EntryIsValid(codec: Codec, q: Request, k: nat)
    requires codec.Lawful() && Collects(codec, q) && k < |Collected(codec, q)|
    ensures ValidTransferEntry(Collected(codec, q)[k])
  {
    hide Distinct, BundleBytes, ObjectsAgree, RecordsDiffer, ValidRelativePath, ClaimsHold, RecordTotal, ObjectTotal,
         ValidTransferManifest;
    var (e, n, objects) := (Collected(codec, q)[k], |q.records|, Distinct(q.objects));
    CollectedAt(codec, q, k);
    NamesApart(e.sha256, e.sha256);
    InputPathIsSafe();
    assert RECORDS + e.sha256 == "records" + "/" + e.sha256 && OBJECTS + e.sha256 == "objects" + "/" + e.sha256;
    assert (RECORDS + e.sha256)[0] == 'r' && (OBJECTS + e.sha256)[0] == 'o' && VERIFIED_INPUT_NAME[0] == 'v';
    if k < n {
      assert e == RecordEntry(codec, q.records[k]) && RecordFits(q.records[k]);
      PayloadIsSafe("records", e.sha256);
    } else if k < n + |objects| {
      assert e == ObjectEntry(objects[k - n]) && objects[k - n] in objects && ObjectFits(objects[k - n]);
      PayloadIsSafe("objects", e.sha256);
    } else {
      assert e == InputRecordEntry(codec, q);
    }
  }

  lemma RefIsValid(codec: Codec, q: Request, r: TransferRecordRef)
    requires codec.Lawful() && Collects(codec, q) && r in Manifest(codec, q).records
    ensures ValidRecordRef(r)
  {
    hide Distinct, BundleBytes, ObjectsAgree, RecordsDiffer, ClaimsHold, RecordTotal, ObjectTotal, ValidTransferManifest, SortBy;
    var refs := Map(r => RecordRef(codec, r), q.records);
    assert r in refs;
    var k :| 0 <= k < |refs| && refs[k] == r;
    assert RecordFits(q.records[k]);
  }

  lemma ManifestIsShaped(codec: Codec, q: Request)
    requires Collects(codec, q)
    ensures ManifestShape(Manifest(codec, q)) && Sum(TransferSizes(Manifest(codec, q).entries)) <= MAX_TOTAL_BYTES
    ensures Manifest(codec, q).records != [] <==> q.records != []
  {
    hide Distinct, BundleBytes, SortBy, Sum, RecordTotal, ObjectTotal, ObjectsAgree, RecordsDiffer, RecordFits, ObjectFits, Ascending,
         ValidSource, Collected;
    ManifestAscends(codec, q);
    ManifestTotal(codec, q);
    DistinctIsShorter(q.objects);
    CollectedCount(codec, q);
    SortKeepsLength(Collected(codec, q), PathOf);
    SortKeepsLength(Map(r => RecordRef(codec, r), q.records), RoleOf);
  }

  lemma InputIsListed(codec: Codec, q: Request)
    ensures VERIFIED_INPUT_NAME in EntryPaths(Manifest(codec, q).entries)
  {
    hide Collected, EntryPaths, BundleBytes;
    var m := Manifest(codec, q);
    InputIsCollected(codec, q);
    assert InputRecordEntry(codec, q) in m.entries;
    InPaths(m.entries, VERIFIED_INPUT_NAME);
  }

  /** The manifest is valid exactly when there is a record. */
  lemma ManifestIsValid(codec: Codec, q: Request)
    requires codec.Lawful() && Collects(codec, q)
    ensures ValidTransferManifest(Manifest(codec, q)) <==> q.records != []
  {
    hide Codec.Lawful, Collects, ValidTransferEntry, ValidRecordRef, ManifestShape, Collected, EntryPaths, Sum, TransferSizes;
    var m := Manifest(codec, q);
    forall e <- m.entries ensures ValidTransferEntry(e) {
      assert e in Collected(codec, q);
      var k :| 0 <= k < |Collected(codec, q)| && Collected(codec, q)[k] == e;
      EntryIsValid(codec, q, k);
    }
    forall r <- m.records ensures ValidRecordRef(r) { RefIsValid(codec, q, r); }
    ManifestIsShaped(codec, q);
    InputIsListed(codec, q);
  }

  /** The conditions of preflight in the caller's terms. */
  predicate Acceptable(codec: Codec, q: Request) {
    && Collects(codec, q) && q.records != [] && GoodAddresses(codec, q)
    && 0 < |ManifestBytes(codec, q)| <= MAX_MANIFEST_BYTES
    && (forall o <- q.objects :: ObjectIntact(codec, o))
  }

  /** Sorting, distinctness, safe paths, sizes and totals of both documents follow from what was checked before they
      were made: their validation rejects only a request without records or with a bad address. */
  lemma PassesExactlyTheAcceptable(codec: Codec, q: Request)
    requires codec.Lawful()
    ensures Passes(codec, q) <==> Acceptable(codec, q)
  {
    hide Codec.Lawful, ClaimsHold, RecordFits, RecordsDiffer, ObjectFits, ObjectsAgree, ObjectIntact, Distinct, RecordTotal, ObjectTotal,
         BundleBytes, ManifestBytes, Manifest, ValidTransferManifest, InputFromJson, GoodAddresses;
    if Collects(codec, q) {
      RecordIsAdmitted(codec, q);
      ManifestIsValid(codec, q);
    }
  }

  /** The same with every rule written out. */
  lemma AcceptableMeans(codec: Codec, q: Request)
    ensures Acceptable(codec, q) <==>
      && IsSha256Hex(q.sourceSha256) && IsSha256Hex(q.compatibilityInputSha256)
      && (match (q.sourceKind, q.sourceCommit, q.sourceTreeSha256)
          case (CatalogSource, Some(commit), Some(tree)) => IsCommit(commit) && IsSha256Hex(tree)
          case (ReleaseIntent, None, None) => true
          case _ => false)
      && q.records != [] && q.objects != [] && |q.records| + |q.objects| + 1 <= 32768
      && (forall r <- q.records :: SafeRole(r.role) && 0 < |r.bytes| <= 8388608)
      && (forall i, j | 0 <= i < j < |q.records| ::
            q.records[i].role != q.records[j].role && codec.sha(q.records[i].bytes) != codec.sha(q.records[j].bytes))
      && (forall o <- q.objects ::
            && 0 < o.size <= 8589934592 && IsSha256Hex(o.sha256) && codec.validUrl(o.sourceUrl)
            && |o.content| == o.size && codec.sha(o.content) == o.sha256)
      && (forall a <- q.objects, b <- q.objects | a.sha256 == b.sha256 :: a.sourceUrl == b.sourceUrl && a.size == b.size)
      && 0 < |codec.encodeInput(Bundle(q))| <= 8388608 && 0 < |codec.encodeManifest(Manifest(codec, q))| <= 8388608
      && RecordTotal(q.records) + ObjectTotal(Distinct(q.objects)) + |codec.encodeInput(Bundle(q))| <= 68719476736
  {
    hide Bundle, Manifest, Distinct, RecordTotal, ObjectTotal, IsSha256Hex, IsCommit, SafeRole;
    ClaimsMean(q);
    hide ClaimsHold;
  }

  lemma ClaimsMean(q: Request)
    ensures ClaimsHold(q) <==>
      && IsSha256Hex(q.sourceSha256) && IsSha256Hex(q.compatibilityInputSha256)
      && match (q.sourceKind, q.sourceCommit, q.sourceTreeSha256)
         case (CatalogSource, Some(commit), Some(tree)) => IsCommit(commit) && IsSha256Hex(tree)
         case (ReleaseIntent, None, None) => true
         case _ => false
  {
    hide IsSha256Hex, IsCommit;
  }
}
