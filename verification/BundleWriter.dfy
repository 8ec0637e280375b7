/** The bundle writer: what passes preflight, the tree it writes, and why the verifier accepts that tree. */
module BundleWriter {
  import opened Wrappers
  import opened Text
  import opened JsonScan
  import opened Inventory
  import opened TransferBundle

  datatype BundleRecord = BundleRecord(role: string, bytes: Bytes)

  datatype PublicObject = PublicObject(content: Bytes, sourceUrl: string, size: nat, sha256: string)

  datatype Request = Request(
    sourceKind: InputSourceKind, sourceSha256: string, compatibilityInputSha256: string,
    sourceCommit: Option<string>, sourceTreeSha256: Option<string>,
    records: seq<BundleRecord>, objects: seq<PublicObject>)

  datatype PreparedRecord = PreparedRecord(relativePath: string, bytes: Bytes)

  datatype Preflight = Preflight(
    records: seq<PreparedRecord>, objects: seq<PublicObject>, bundleBytes: Bytes, verified: InputBundle, manifestBytes: Bytes)

  // ----- Sorting by a text key

  function Insert<T(!new)>(x: T, xs: seq<T>, key: T -> string): (r: seq<T>)
    ensures forall y :: y in r <==> y == x || y in xs
  {
    if xs == [] then [x]
    else if Less(key(x), key(xs[0])) then [x] + xs
    else
      assert forall y | y in xs :: y == xs[0] || y in xs[1..];
      [xs[0]] + Insert(x, xs[1..], key)
  }

  /** A stable sort. */
  function SortBy<T(!new)>(xs: seq<T>, key: T -> string): (r: seq<T>)
    ensures forall y :: y in r <==> y in xs
  {
    if xs == [] then []
    else
      assert forall y | y in xs :: y == xs[|xs| - 1] || y in xs[..|xs| - 1];
      Insert(xs[|xs| - 1], SortBy(xs[..|xs| - 1], key), key)
  }

  // ----- The plan

  function DigestOf(o: PublicObject): string { o.sha256 }

  function RoleOf(r: TransferRecordRef): string { r.role }

  function PathOf(e: TransferEntry): string { e.relativePath }

  function RecordPath(codec: Codec, r: BundleRecord): string { RECORDS + codec.sha(r.bytes) }

  function ObjectPath(o: PublicObject): string { OBJECTS + o.sha256 }

  function RecordEntry(codec: Codec, r: BundleRecord): TransferEntry {
    TransferEntry(RecordPath(codec, r), "0400", |r.bytes|, codec.sha(r.bytes))
  }

  function RecordRef(codec: Codec, r: BundleRecord): TransferRecordRef {
    TransferRecordRef(r.role, RecordPath(codec, r), codec.sha(r.bytes))
  }

  function ObjectEntry(o: PublicObject): TransferEntry { TransferEntry(ObjectPath(o), "0400", o.size, o.sha256) }

  function ObjectRecord(o: PublicObject): InputObject { InputObject(ObjectPath(o), o.sourceUrl, o.size, o.sha256) }

  function Map<S, T>(f: S -> T, xs: seq<S>): (r: seq<T>)
    ensures |r| == |xs| && forall i | 0 <= i < |xs| :: r[i] == f(xs[i])
  {
    seq(|xs|, i requires 0 <= i < |xs| => f(xs[i]))
  }

  predicate HasDigest(objects: seq<PublicObject>, digest: string) {
    exists o <- objects :: o.sha256 == digest
  }

  /** The first object of each digest. */
  function Distinct(objects: seq<PublicObject>): (r: seq<PublicObject>)
    ensures forall o <- r :: o in objects
    ensures forall o <- objects :: HasDigest(r, o.sha256)
  {
    if objects == [] then []
    else
      var (init, last) := (objects[..|objects| - 1], objects[|objects| - 1]);
      assert forall o <- objects :: o == last || o in init;
      var r := Distinct(init);
      if HasDigest(r, last.sha256) then r else
        assert (r + [last])[|r|] == last;
        r + [last]
  }

  function Bundle(q: Request): InputBundle {
    InputBundle(1, q.sourceKind, q.sourceSha256, q.compatibilityInputSha256,
                Map(ObjectRecord, SortBy(Distinct(q.objects), DigestOf)))
  }

  function BundleBytes(codec: Codec, q: Request): Bytes { codec.encodeInput(Bundle(q)) }

  function InputRecordEntry(codec: Codec, q: Request): TransferEntry {
    TransferEntry(VERIFIED_INPUT_NAME, "0400", |BundleBytes(codec, q)|, codec.sha(BundleBytes(codec, q)))
  }

  /** The entries in the order they are collected: records, distinct objects, the verified input record. */
  function Collected(codec: Codec, q: Request): seq<TransferEntry> {
    Map(r => RecordEntry(codec, r), q.records) + Map(ObjectEntry, Distinct(q.objects)) + [InputRecordEntry(codec, q)]
  }

  function Manifest(codec: Codec, q: Request): TransferManifest {
    TransferManifest(
      1, "verified_input", q.sourceCommit, q.sourceTreeSha256,
      SortBy(Map(r => RecordRef(codec, r), q.records), RoleOf),
      SortBy(Collected(codec, q), PathOf))
  }

  function ManifestBytes(codec: Codec, q: Request): Bytes { codec.encodeManifest(Manifest(codec, q)) }

  predicate ClaimsHold(q: Request) {
    && IsSha256Hex(q.sourceSha256) && IsSha256Hex(q.compatibilityInputSha256)
    && ValidSource(q.sourceCommit, q.sourceTreeSha256)
    && (q.sourceKind.CatalogSource? <==> q.sourceCommit.Some?)
  }

  predicate RecordFits(r: BundleRecord) { SafeRole(r.role) && 0 < |r.bytes| <= MAX_MANIFEST_BYTES }

  predicate ObjectFits(o: PublicObject) { 0 < o.size <= MAX_ENTRY_BYTES && IsSha256Hex(o.sha256) }

  predicate ObjectIntact(codec: Codec, o: PublicObject) { |o.content| == o.size && codec.sha(o.content) == o.sha256 }

  predicate RecordsDiffer(codec: Codec, records: seq<BundleRecord>) {
    forall i, j | 0 <= i < j < |records| ::
      records[i].role != records[j].role && codec.sha(records[i].bytes) != codec.sha(records[j].bytes)
  }

  /** Objects with one digest come from one address and have one size. */
  predicate ObjectsAgree(objects: seq<PublicObject>) {
    forall a <- objects, b <- objects ::
      a.sha256 == b.sha256 ==> a.sourceUrl == b.sourceUrl && a.size == b.size
  }

  /** Exactly the requests that pass preflight. */
  predicate Passes(codec: Codec, q: Request) {
    && ClaimsHold(q)
    && |q.records| + |q.objects| + 1 <= MAX_ENTRIES
    && (forall r <- q.records :: RecordFits(r)) && RecordsDiffer(codec, q.records)
    && (forall o <- q.objects :: ObjectFits(o)) && ObjectsAgree(q.objects) && q.objects != []
    && 0 < |BundleBytes(codec, q)| <= MAX_MANIFEST_BYTES
    && RecordTotal(q.records) + ObjectTotal(Distinct(q.objects)) + |BundleBytes(codec, q)| <= MAX_TOTAL_BYTES
    && InputFromJson(codec, BundleBytes(codec, q)).Some?
    && ValidTransferManifest(Manifest(codec, q))
    && 0 < |ManifestBytes(codec, q)| <= MAX_MANIFEST_BYTES
    && (forall o <- q.objects :: ObjectIntact(codec, o))
  }

  function Plan(codec: Codec, q: Request): Preflight
    requires Passes(codec, q)
  {
    Preflight(
      Map(r => PreparedRecord(RecordPath(codec, r), r.bytes), q.records), Distinct(q.objects),
      BundleBytes(codec, q), InputFromJson(codec, BundleBytes(codec, q)).value, ManifestBytes(codec, q))
  }

  // ----- Preflight

  /** A 64-bit checked add under the total bound. */
  function CheckedPreflightTotal(total: nat, size: nat): (r: Option<nat>)
    ensures r == if total + size <= MAX_TOTAL_BYTES then Some(total + size) else None
  {
    if total + size > U64_MAX then None
    else if total + size > MAX_TOTAL_BYTES then None
    else Some(total + size)
  }

  lemma MapPrefix<S, T>(f: S -> T, xs: seq<S>, i: nat)
    requires i < |xs|
    ensures Map(f, xs[..i + 1]) == Map(f, xs[..i]) + [f(xs[i])]
  {}

  function RecordEntries(codec: Codec, records: seq<BundleRecord>): seq<TransferEntry> { Map(r => RecordEntry(codec, r), records) }

  function RecordRefs(codec: Codec, records: seq<BundleRecord>): seq<TransferRecordRef> { Map(r => RecordRef(codec, r), records) }

  function PreparedRecords(codec: Codec, records: seq<BundleRecord>): seq<PreparedRecord> {
    Map(r => PreparedRecord(RecordPath(codec, r), r.bytes), records)
  }

  function RecordTotal(records: seq<BundleRecord>): nat {
    if records == [] then 0 else RecordTotal(records[..|records| - 1]) + |records[|records| - 1].bytes|
  }

  function ObjectTotal(objects: seq<PublicObject>): nat {
    if objects == [] then 0 else ObjectTotal(objects[..|objects| - 1]) + objects[|objects| - 1].size
  }

  predicate RecordsPass(codec: Codec, records: seq<BundleRecord>) {
    && (forall r <- records :: RecordFits(r)) && RecordsDiffer(codec, records)
    && RecordTotal(records) <= MAX_TOTAL_BYTES
  }

  /** No role and no digest twice. */
  lemma DifferStep(codec: Codec, records: seq<BundleRecord>, i: nat, roles: set<string>, paths: set<string>)
    requires i < |records|
    requires roles == set k | 0 <= k < i :: records[k].role
    requires paths == set k | 0 <= k < i :: RecordPath(codec, records[k])
    ensures RecordsDiffer(codec, records[..i + 1]) <==>
      && RecordsDiffer(codec, records[..i]) && records[i].role !in roles && RecordPath(codec, records[i]) !in paths
  {
    if RecordsDiffer(codec, records[..i]) && records[i].role !in roles && RecordPath(codec, records[i]) !in paths {
      forall k | 0 <= k < i
        ensures records[k].role != records[i].role && codec.sha(records[k].bytes) != codec.sha(records[i].bytes)
      {
        assert RecordPath(codec, records[k]) in paths;
      }
    }
    if RecordsDiffer(codec, records[..i + 1]) {
      forall k | 0 <= k < i
        ensures records[k].role != records[i].role && RecordPath(codec, records[k]) != RecordPath(codec, records[i])
      {
        assert records[..i + 1][k] == records[k] && records[..i + 1][i] == records[i];
        if RecordPath(codec, records[k]) == RecordPath(codec, records[i]) {
          SamePrefix(RECORDS, codec.sha(records[k].bytes), codec.sha(records[i].bytes));
        }
      }
    }
  }

  lemma {:induction false} RecordTotalStep(records: seq<BundleRecord>, i: nat)
    requires i < |records|
    ensures RecordTotal(records[..i + 1]) == RecordTotal(records[..i]) + |records[i].bytes|
    ensures RecordTotal(records[..i + 1]) <= RecordTotal(records)
    decreases |records| - i
  {
    assert records[..i + 1][..i] == records[..i];
    if i + 1 < |records| { RecordTotalStep(records, i + 1); } else { assert records[..i + 1] == records; }
  }

  lemma PassPrefix(codec: Codec, records: seq<BundleRecord>, i: nat)
    requires i < |records|
    ensures RecordsPass(codec, records) ==> RecordsPass(codec, records[..i + 1])
  {
    RecordTotalStep(records, i);
    assert forall r <- records[..i + 1] :: r in records;
  }

  datatype CollectedRecords = CollectedRecords(
    entries: seq<TransferEntry>, refs: seq<TransferRecordRef>, prepared: seq<PreparedRecord>, total: nat)

  function RecordsUpTo(codec: Codec, records: seq<BundleRecord>): CollectedRecords {
    CollectedRecords(RecordEntries(codec, records), RecordRefs(codec, records), PreparedRecords(codec, records),
                     RecordTotal(records))
  }

  lemma RecordsStep(codec: Codec, records: seq<BundleRecord>, i: nat, at: CollectedRecords)
    requires i < |records| && at == RecordsUpTo(codec, records[..i])
    ensures var r := records[i];
      RecordsUpTo(codec, records[..i + 1]) == CollectedRecords(
        at.entries + [RecordEntry(codec, r)], at.refs + [RecordRef(codec, r)],
        at.prepared + [PreparedRecord(RecordPath(codec, r), r.bytes)], at.total + |r.bytes|)
  {
    hide RecordTotal;
    MapPrefix(r => RecordEntry(codec, r), records, i);
    MapPrefix(r => RecordRef(codec, r), records, i);
    MapPrefix(r => PreparedRecord(RecordPath(codec, r), r.bytes), records, i);
    RecordTotalStep(records, i);
  }

  lemma PassStep(codec: Codec, records: seq<BundleRecord>, i: nat)
    requires i < |records|
    ensures RecordsPass(codec, records[..i + 1]) <==>
      && (forall r <- records[..i] :: RecordFits(r)) && RecordFits(records[i])
      && RecordsDiffer(codec, records[..i + 1]) && RecordTotal(records[..i + 1]) <= MAX_TOTAL_BYTES
  {
    assert records[..i + 1] == records[..i] + [records[i]];
  }

  method CollectRecords(codec: Codec, records: seq<BundleRecord>) returns (r: Option<CollectedRecords>)
    ensures r == if RecordsPass(codec, records) then Some(RecordsUpTo(codec, records)) else None
  {
    hide RecordsPass, RecordsUpTo, RecordFits, RecordsDiffer, RecordTotal;
    var at := CollectedRecords([], [], [], 0);
    var roles: set<string>, paths: set<string> := {}, {};
    NoRecords(codec, records);
    for i := 0 to |records|
      invariant at == RecordsUpTo(codec, records[..i]) && at.total == RecordTotal(records[..i])
      invariant RecordsPass(codec, records[..i])
      invariant roles == set k | 0 <= k < i :: records[k].role
      invariant paths == set k | 0 <= k < i :: RecordPath(codec, records[k])
    {
      var record := records[i];
      DifferStep(codec, records, i, roles, paths);
      PassStep(codec, records, i);
      PassPrefix(codec, records, i);
      RecordsStep(codec, records, i, at);
      RecordTotalStep(records, i);
      PassedBefore(codec, records, i);
      if !RecordFits(record) || record.role in roles { return None; }
      var digest := codec.sha(record.bytes);
      var relativePath := RECORDS + digest;
      if relativePath in paths { return None; }
      var total := CheckedPreflightTotal(at.total, |record.bytes|);
      if total.None? { return None; }
      at := CollectedRecords(
        at.entries + [TransferEntry(relativePath, "0400", |record.bytes|, digest)],
        at.refs + [TransferRecordRef(record.role, relativePath, digest)],
        at.prepared + [PreparedRecord(relativePath, record.bytes)], total.value);
      roles, paths := roles + {record.role}, paths + {relativePath};
    }
    assert records[..|records|] == records;
    return Some(at);
  }

  lemma NoRecords(codec: Codec, records: seq<BundleRecord>)
    ensures RecordsUpTo(codec, records[..0]) == CollectedRecords([], [], [], 0) && RecordsPass(codec, records[..0])
    ensures RecordTotal(records[..0]) == 0
  {}

  lemma PassedBefore(codec: Codec, records: seq<BundleRecord>, i: nat)
    requires i < |records|
    ensures RecordsPass(codec, records[..i]) ==> RecordsDiffer(codec, records[..i]) && forall r <- records[..i] :: RecordFits(r)
  {}

  lemma DistinctStep(objects: seq<PublicObject>, i: nat)
    requires i < |objects|
    ensures var (before, o) := (Distinct(objects[..i]), objects[i]);
      && Distinct(objects[..i + 1]) == (if HasDigest(before, o.sha256) then before else before + [o])
      && ObjectTotal(Distinct(objects[..i + 1])) == ObjectTotal(before) + if HasDigest(before, o.sha256) then 0 else o.size
  {
    assert objects[..i + 1][..i] == objects[..i];
    var (before, o) := (Distinct(objects[..i]), objects[i]);
    assert (before + [o])[..|before|] == before;
  }

  lemma {:induction false} ObjectTotalGrows(objects: seq<PublicObject>, i: nat)
    requires i <= |objects|
    ensures ObjectTotal(Distinct(objects[..i])) <= ObjectTotal(Distinct(objects))
    decreases |objects| - i
  {
    hide ObjectTotal, Distinct;
    if i == |objects| {
      assert objects[..i] == objects;
    } else {
      DistinctStep(objects, i);
      ObjectTotalGrows(objects, i + 1);
    }
  }

  /** The table of the objects met so far: each digest with the address and size of its objects. */
  ghost predicate TableOf(table: map<string, (string, nat)>, objects: seq<PublicObject>) {
    && (forall o <- objects :: o.sha256 in table && table[o.sha256] == (o.sourceUrl, o.size))
    && (forall digest <- table :: HasDigest(objects, digest))
  }

  lemma DigestsAgree(a: seq<PublicObject>, b: seq<PublicObject>, digest: string)
    requires forall o <- a :: o in b
    ensures HasDigest(a, digest) ==> HasDigest(b, digest)
  {}

  lemma TableKnows(table: map<string, (string, nat)>, objects: seq<PublicObject>, digest: string)
    requires TableOf(table, objects)
    ensures digest in table <==> HasDigest(Distinct(objects), digest)
  {
    hide Distinct;
    DigestsAgree(Distinct(objects), objects, digest);
  }

  lemma TableGains(table: map<string, (string, nat)>, objects: seq<PublicObject>, o: PublicObject)
    requires TableOf(table, objects)
    ensures o.sha256 !in table ==> TableOf(table[o.sha256 := (o.sourceUrl, o.size)], objects + [o])
    ensures o.sha256 in table && table[o.sha256] == (o.sourceUrl, o.size) ==> TableOf(table, objects + [o])
  {
    DigestAdded(objects, o);
  }

  lemma TableRefuses(table: map<string, (string, nat)>, objects: seq<PublicObject>, all: seq<PublicObject>, o: PublicObject)
    requires TableOf(table, objects) && (forall a <- objects :: a in all) && o in all
    requires o.sha256 in table && table[o.sha256] != (o.sourceUrl, o.size)
    ensures !ObjectsAgree(all)
  {
    assert HasDigest(objects, o.sha256);
    var a :| a in objects && a.sha256 == o.sha256;
    assert a in all && (a.sourceUrl, a.size) != (o.sourceUrl, o.size);
  }

  lemma TableAgrees(table: map<string, (string, nat)>, objects: seq<PublicObject>)
    requires TableOf(table, objects)
    ensures ObjectsAgree(objects)
  {}

  predicate ObjectsPass(objects: seq<PublicObject>, total: nat) {
    && (forall o <- objects :: ObjectFits(o)) && ObjectsAgree(objects)
    && total + ObjectTotal(Distinct(objects)) <= MAX_TOTAL_BYTES
  }

  /** Objects with a digest that has been seen must match it and are not counted again. */
  method CollectObjects(objects: seq<PublicObject>, total0: nat) returns (r: Option<(seq<PublicObject>, nat)>)
    requires total0 <= MAX_TOTAL_BYTES
    ensures r == if ObjectsPass(objects, total0)
                 then Some((Distinct(objects), total0 + ObjectTotal(Distinct(objects)))) else None
  {
    hide Distinct, ObjectTotal, ObjectFits, TableOf, ObjectsAgree;
    var table: map<string, (string, nat)>, distinct: seq<PublicObject>, total := map[], [], total0;
    NoObjects(objects, table);
    for i := 0 to |objects|
      invariant distinct == Distinct(objects[..i]) && total == total0 + ObjectTotal(distinct)
      invariant total <= MAX_TOTAL_BYTES
      invariant TableOf(table, objects[..i])
      invariant forall k | 0 <= k < i :: ObjectFits(objects[k])
    {
      var o := objects[i];
      DistinctStep(objects, i);
      ObjectTotalGrows(objects, i + 1);
      TableKnows(table, objects[..i], o.sha256);
      TableGains(table, objects[..i], o);
      assert objects[..i + 1] == objects[..i] + [o];
      if !ObjectFits(o) { return None; }
      if o.sha256 in table {
        if table[o.sha256] != (o.sourceUrl, o.size) {
          TableRefuses(table, objects[..i], objects, o);
          return None;
        }
      } else {
        var added := CheckedPreflightTotal(total, o.size);
        if added.None? { return None; }
        total := added.value;
        distinct := distinct + [o];
        table := table[o.sha256 := (o.sourceUrl, o.size)];
      }
    }
    assert objects[..|objects|] == objects;
    TableAgrees(table, objects);
    return Some((distinct, total));
  }

  lemma NoObjects(objects: seq<PublicObject>, table: map<string, (string, nat)>)
    requires table == map[]
    ensures Distinct(objects[..0]) == [] && ObjectTotal([]) == 0 && TableOf(table, objects[..0])
  {}

  /** Every source is checked, the first of each digest is kept. */
  method PrepareObjects(codec: Codec, objects: seq<PublicObject>) returns (r: Option<seq<PublicObject>>)
    ensures r == if forall o <- objects :: ObjectIntact(codec, o) then Some(Distinct(objects)) else None
  {
    hide Distinct, ObjectTotal, ObjectIntact;
    var seen: set<string>, prepared: seq<PublicObject> := {}, [];
    NoObjects(objects, map[]);
    for i := 0 to |objects|
      invariant prepared == Distinct(objects[..i])
      invariant forall digest :: digest in seen <==> HasDigest(prepared, digest)
      invariant forall k | 0 <= k < i :: ObjectIntact(codec, objects[k])
    {
      var o := objects[i];
      DistinctStep(objects, i);
      if !ObjectIntact(codec, o) { return None; }
      if o.sha256 !in seen {
        DigestAdded(prepared, o);
        seen := seen + {o.sha256};
        prepared := prepared + [o];
      }
    }
    assert objects[..|objects|] == objects;
    return Some(prepared);
  }

  lemma DigestAdded(objects: seq<PublicObject>, o: PublicObject)
    ensures forall digest :: HasDigest(objects + [o], digest) <==> HasDigest(objects, digest) || digest == o.sha256
  {
    assert o in objects + [o];
    forall digest | HasDigest(objects, digest) ensures HasDigest(objects + [o], digest) {
      var a :| a in objects && a.sha256 == digest;
      assert a in objects + [o];
    }
  }

  /** Preflight of a whole request. */
  method PreflightVerifiedBundle(codec: Codec, q: Request) returns (r: Option<Preflight>)
    ensures r == if Passes(codec, q) then Some(Plan(codec, q)) else None
  {
    hide RecordFits, ObjectFits, ObjectIntact, RecordsDiffer, ObjectsAgree, Sum, RecordTotal, ObjectTotal, Distinct, InputFromJson,
         ClaimsHold, ValidTransferManifest;
    if !ClaimsHold(q) { return None; }
    if |q.records| > MAX_ENTRIES || |q.objects| > MAX_ENTRIES || |q.records| + |q.objects| + 1 > MAX_ENTRIES { return None; }
    var records := CollectRecords(codec, q.records);
    if records.None? { return None; }
    var objects := CollectObjects(q.objects, records.value.total);
    if objects.None? || q.objects == [] { return None; }
    var (distinct, total) := objects.value;
    var bundle := InputBundle(1, q.sourceKind, q.sourceSha256, q.compatibilityInputSha256,
                              Map(ObjectRecord, SortBy(distinct, DigestOf)));
    assert bundle == Bundle(q);
    var bundleBytes := codec.encodeInput(bundle);
    if bundleBytes == [] || |bundleBytes| > MAX_MANIFEST_BYTES { return None; }
    if CheckedPreflightTotal(total, |bundleBytes|).None? { return None; }
    var verified := InputFromJson(codec, bundleBytes);
    if verified.None? { return None; }
    var own := TransferEntry(VERIFIED_INPUT_NAME, "0400", |bundleBytes|, codec.sha(bundleBytes));
    var entries := records.value.entries + Map(ObjectEntry, distinct) + [own];
    var manifest := TransferManifest(
      1, "verified_input", q.sourceCommit, q.sourceTreeSha256,
      SortBy(records.value.refs, RoleOf), SortBy(entries, PathOf));
    assert manifest == Manifest(codec, q);
    var valid := ValidateManifest(manifest);
    if !valid { return None; }
    var manifestBytes := codec.encodeManifest(manifest);
    if manifestBytes == [] || |manifestBytes| > MAX_MANIFEST_BYTES { return None; }
    var prepared := PrepareObjects(codec, q.objects);
    if prepared.None? { return None; }
    return Some(Preflight(records.value.prepared, prepared.value, bundleBytes, verified.value, manifestBytes));
  }

  // ----- The tree

  function PutRecords(files: map<string, Bytes>, records: seq<PreparedRecord>): map<string, Bytes> {
    if records == [] then files
    else PutRecords(files, records[..|records| - 1])[records[|records| - 1].relativePath := records[|records| - 1].bytes]
  }

  function PutObjects(files: map<string, Bytes>, objects: seq<PublicObject>): map<string, Bytes> {
    if objects == [] then files
    else PutObjects(files, objects[..|objects| - 1])[ObjectPath(objects[|objects| - 1]) := objects[|objects| - 1].content]
  }

  /** The tree written for a preflighted request. */
  function BundleTree(p: Preflight): Tree {
    Tree({"objects", "records"},
         PutObjects(PutRecords(map[], p.records), p.objects)
           [VERIFIED_INPUT_NAME := p.bundleBytes][TRANSFER_MANIFEST_NAME := p.manifestBytes],
         {})
  }

  // ----- What the tree holds

  lemma NamesApart(a: string, b: string)
    ensures RECORDS + a != OBJECTS + b
    ensures RECORDS + a != VERIFIED_INPUT_NAME && RECORDS + a != TRANSFER_MANIFEST_NAME
    ensures OBJECTS + b != VERIFIED_INPUT_NAME && OBJECTS + b != TRANSFER_MANIFEST_NAME
    ensures VERIFIED_INPUT_NAME != TRANSFER_MANIFEST_NAME
  {
    assert (RECORDS + a)[0] == 'r' && (OBJECTS + b)[0] == 'o';
    assert VERIFIED_INPUT_NAME[0] == 'v' && TRANSFER_MANIFEST_NAME[0] == 't';
  }

  lemma SamePrefix(prefix: string, a: string, b: string)
    requires prefix + a == prefix + b
    ensures a == b
  {
    assert (prefix + a)[|prefix|..] == a && (prefix + b)[|prefix|..] == b;
  }

  lemma {:induction false} RecordsAreWritten(files: map<string, Bytes>, records: seq<PreparedRecord>)
    requires forall i, j | 0 <= i < j < |records| :: records[i].relativePath != records[j].relativePath
    ensures forall r <- records :: r.relativePath in PutRecords(files, records) && PutRecords(files, records)[r.relativePath] == r.bytes
    ensures forall p <- PutRecords(files, records) :: p in files || exists r <- records :: r.relativePath == p
  {
    if records != [] {
      var (init, last) := (records[..|records| - 1], records[|records| - 1]);
      RecordsAreWritten(files, init);
      forall r <- records ensures r == last || (r in init && r.relativePath != last.relativePath) {
        var k :| 0 <= k < |records| && records[k] == r;
        if k < |records| - 1 { assert init[k] == r; }
      }
      assert last in records && forall r <- init :: r in records;
    }
  }

  lemma {:induction false} ObjectsAreWritten(files: map<string, Bytes>, objects: seq<PublicObject>)
    requires DistinctDigests(objects)
    ensures forall o <- objects :: ObjectPath(o) in PutObjects(files, objects) && PutObjects(files, objects)[ObjectPath(o)] == o.content
    ensures forall p <- PutObjects(files, objects) :: p in files || exists o <- objects :: ObjectPath(o) == p
    ensures forall p <- files | !StartsWith(p, OBJECTS) :: p in PutObjects(files, objects) && PutObjects(files, objects)[p] == files[p]
  {
    if objects != [] {
      var (init, last) := (objects[..|objects| - 1], objects[|objects| - 1]);
      ObjectsAreWritten(files, init);
      forall o <- objects ensures o == last || (o in init && ObjectPath(o) != ObjectPath(last)) {
        var k :| 0 <= k < |objects| && objects[k] == o;
        if k < |objects| - 1 {
          assert init[k] == o;
          if ObjectPath(o) == ObjectPath(last) { SamePrefix(OBJECTS, o.sha256, last.sha256); }
        }
      }
      assert last in objects && forall o <- init :: o in objects;
    }
  }

  predicate DistinctDigests(objects: seq<PublicObject>) {
    forall i, j | 0 <= i < j < |objects| :: objects[i].sha256 != objects[j].sha256
  }

  lemma {:induction false} DistinctDiffer(objects: seq<PublicObject>)
    ensures DistinctDigests(Distinct(objects))
  {
    if objects != [] {
      DistinctDiffer(objects[..|objects| - 1]);
      var (r, last) := (Distinct(objects[..|objects| - 1]), objects[|objects| - 1]);
      if !HasDigest(r, last.sha256) {
        forall i | 0 <= i < |r| ensures r[i].sha256 != last.sha256 {
          assert r[i] in r;
        }
      }
    }
  }

  predicate RecordPathsDiffer(records: seq<PreparedRecord>) {
    forall i, j | 0 <= i < j < |records| :: records[i].relativePath != records[j].relativePath
  }

  lemma PreparedPathsDiffer(codec: Codec, q: Request)
    requires Passes(codec, q)
    ensures RecordPathsDiffer(Plan(codec, q).records)
  {
    var records := Plan(codec, q).records;
    forall i, j | 0 <= i < j < |records| ensures records[i].relativePath != records[j].relativePath {
      if records[i].relativePath == records[j].relativePath {
        SamePrefix(RECORDS, codec.sha(q.records[i].bytes), codec.sha(q.records[j].bytes));
        assert false;
      }
    }
  }

  /** The file of an entry, with that size and digest. */
  predicate IsWritten(codec: Codec, files: map<string, Bytes>, e: TransferEntry) {
    e.relativePath in files && |files[e.relativePath]| == e.size && codec.sha(files[e.relativePath]) == e.sha256
  }

  lemma RecordIsWritten(codec: Codec, q: Request, k: nat)
    requires Passes(codec, q) && k < |q.records|
    ensures IsWritten(codec, BundleTree(Plan(codec, q)).files, RecordEntry(codec, q.records[k]))
  {
    hide Passes, BundleBytes, ManifestBytes, Distinct, PutRecords, PutObjects;
    var p := Plan(codec, q);
    WrittenOnce(codec, q);
    var digest := codec.sha(q.records[k].bytes);
    NamesApart(digest, "");
    assert p.records[k] in p.records && p.records[k].relativePath == RECORDS + digest;
    assert (RECORDS + digest)[0] == 'r';
  }

  lemma ObjectIsWritten(codec: Codec, q: Request, o: PublicObject)
    requires Passes(codec, q) && o in Distinct(q.objects)
    ensures IsWritten(codec, BundleTree(Plan(codec, q)).files, ObjectEntry(o))
  {
    hide BundleBytes, ManifestBytes, Distinct, PutRecords, PutObjects, ValidTransferManifest, InputFromJson, Collected, Manifest;
    WrittenOnce(codec, q);
    NamesApart("", o.sha256);
    assert o in Plan(codec, q).objects && o in q.objects;
    assert ObjectIntact(codec, o);
  }

  /** Each collected entry names a file of the tree, with that size and digest. */
  lemma EntryIsWritten(codec: Codec, q: Request, e: TransferEntry)
    requires Passes(codec, q) && e in Collected(codec, q)
    ensures IsWritten(codec, BundleTree(Plan(codec, q)).files, e)
  {
    hide Passes, BundleBytes, ManifestBytes, Distinct, PutRecords, PutObjects, RecordEntry, ObjectEntry;
    var k :| 0 <= k < |Collected(codec, q)| && Collected(codec, q)[k] == e;
    var objects := Distinct(q.objects);
    if k < |q.records| {
      RecordIsWritten(codec, q, k);
    } else if k < |q.records| + |objects| {
      ObjectIsWritten(codec, q, objects[k - |q.records|]);
    } else {
      NamesApart("", "");
    }
  }

  lemma WrittenOnce(codec: Codec, q: Request)
    requires Passes(codec, q)
    ensures var p := Plan(codec, q);
      var records := PutRecords(map[], p.records);
      && (forall r <- p.records :: r.relativePath in records && records[r.relativePath] == r.bytes)
      && (forall path <- records :: exists r <- p.records :: r.relativePath == path)
      && (forall o <- p.objects :: ObjectPath(o) in PutObjects(records, p.objects)
                                   && PutObjects(records, p.objects)[ObjectPath(o)] == o.content)
      && (forall path <- PutObjects(records, p.objects) :: path in records || exists o <- p.objects :: ObjectPath(o) == path)
      && (forall path <- records | !StartsWith(path, OBJECTS) ::
            path in PutObjects(records, p.objects) && PutObjects(records, p.objects)[path] == records[path])
  {
    hide Passes, PutRecords, PutObjects;
    PreparedPathsDiffer(codec, q);
    DistinctDiffer(q.objects);
    var p := Plan(codec, q);
    RecordsAreWritten(map[], p.records);
    ObjectsAreWritten(PutRecords(map[], p.records), p.objects);
  }

  lemma RecordIsCollected(codec: Codec, q: Request, k: nat)
    requires k < |q.records|
    ensures RecordEntry(codec, q.records[k]) in Collected(codec, q)
  {
    hide RecordEntry, ObjectEntry, InputRecordEntry, Distinct;
    assert Collected(codec, q)[k] == RecordEntry(codec, q.records[k]);
  }

  lemma ObjectIsCollected(codec: Codec, q: Request, o: PublicObject)
    requires o in Distinct(q.objects)
    ensures ObjectEntry(o) in Collected(codec, q)
  {
    hide RecordEntry, ObjectEntry, InputRecordEntry, Distinct;
    var k :| 0 <= k < |Distinct(q.objects)| && Distinct(q.objects)[k] == o;
    assert Collected(codec, q)[|q.records| + k] == ObjectEntry(o);
  }

  lemma InputIsCollected(codec: Codec, q: Request)
    ensures InputRecordEntry(codec, q) in Collected(codec, q)
  {
    hide RecordEntry, ObjectEntry, InputRecordEntry, Distinct;
    var all := Collected(codec, q);
    assert all[|all| - 1] == InputRecordEntry(codec, q);
  }

  /** Each file of the tree is the transfer manifest or has a collected entry. */
  lemma FileIsCollected(codec: Codec, q: Request, path: string) returns (e: TransferEntry)
    requires Passes(codec, q) && path in BundleTree(Plan(codec, q)).files && path != TRANSFER_MANIFEST_NAME
    ensures e in Collected(codec, q) && e.relativePath == path
  {
    hide Passes, BundleBytes, ManifestBytes, Distinct, Collected;
    var p := Plan(codec, q);
    WrittenOnce(codec, q);
    if path == VERIFIED_INPUT_NAME {
      InputIsCollected(codec, q);
      e := InputRecordEntry(codec, q);
    } else if path in PutRecords(map[], p.records) {
      var r :| r in p.records && r.relativePath == path;
      var k :| 0 <= k < |p.records| && p.records[k] == r;
      RecordIsCollected(codec, q, k);
      e := RecordEntry(codec, q.records[k]);
    } else {
      var o :| o in p.objects && ObjectPath(o) == path;
      ObjectIsCollected(codec, q, o);
      e := ObjectEntry(o);
    }
  }

  // ----- The verifier accepts the tree

  lemma NoSlashBefore(path: string, directory: string, name: string)
    requires path == directory + "/" + name && '/' !in directory
    ensures forall k | 0 <= k < |directory| :: path[k] != '/'
  {
    assert forall k | 0 <= k < |directory| :: path[k] == directory[k];
  }

  lemma SplitOnceAt(directory: string, name: string)
    requires '/' !in directory
    ensures SplitOnce(directory + "/" + name) == (directory, Some(name))
  {
    var path := directory + "/" + name;
    NoSlashBefore(path, directory, name);
    FirstSlash(path, |directory|);
  }

  lemma SplitOnceNowhere(name: string)
    requires '/' !in name
    ensures SplitOnce(name) == (name, None)
  {
    NoSlash(name);
  }

  lemma HexIsSafe(digest: string)
    requires IsSha256Hex(digest)
    ensures SafeComponent(digest)
  {
    assert |digest| == 64;
  }

  lemma PayloadPath(directory: string, digest: string)
    requires IsPayloadDirectory(directory) && IsSha256Hex(digest)
    ensures ListedName(directory + "/" + digest)
    ensures SafeRelative(directory + "/" + digest) ==> SplitOutputRelative(directory + "/" + digest).Some?
  {
    assert '/' !in directory;
    SplitOnceAt(directory, digest);
    HexIsSafe(digest);
    assert SafeComponent(directory);
  }

  lemma InputNameIsSafe()
    ensures SafeComponent(VERIFIED_INPUT_NAME) && '/' !in VERIFIED_INPUT_NAME && !IsPayloadDirectory(VERIFIED_INPUT_NAME)
  {}

  lemma ManifestNameIsSafe()
    ensures SafeComponent(TRANSFER_MANIFEST_NAME) && '/' !in TRANSFER_MANIFEST_NAME && !IsPayloadDirectory(TRANSFER_MANIFEST_NAME)
  {}

  lemma FixedNames()
    ensures ListedName(VERIFIED_INPUT_NAME) && ListedName(TRANSFER_MANIFEST_NAME)
    ensures SafeRelative(VERIFIED_INPUT_NAME) ==> SplitOutputRelative(VERIFIED_INPUT_NAME).Some?
  {
    hide SplitOnce, SafeComponent, SafeRelative, IsPayloadDirectory;
    InputNameIsSafe();
    ManifestNameIsSafe();
    SplitOnceNowhere(VERIFIED_INPUT_NAME);
    SplitOnceNowhere(TRANSFER_MANIFEST_NAME);
  }

  /** What a collected entry can be. */
  lemma CollectedKinds(codec: Codec, q: Request, e: TransferEntry)
    requires codec.Lawful() && Passes(codec, q) && e in Collected(codec, q)
    ensures IsSha256Hex(e.sha256)
    ensures e.relativePath == RECORDS + e.sha256 || e.relativePath == OBJECTS + e.sha256 || e == InputRecordEntry(codec, q)
    ensures e.relativePath == OBJECTS + e.sha256 ==> exists o <- Distinct(q.objects) :: e == ObjectEntry(o)
  {
    hide ValidTransferManifest, InputFromJson, ValidInput, Sum, ClaimsHold, Manifest, BundleBytes, ManifestBytes, Distinct,
         RecordsDiffer, ObjectsAgree;
    var k :| 0 <= k < |Collected(codec, q)| && Collected(codec, q)[k] == e;
    NamesApart(e.sha256, e.sha256);
    if k < |q.records| {
      assert e == RecordEntry(codec, q.records[k]);
    } else if k < |q.records| + |Distinct(q.objects)| {
      var o := Distinct(q.objects)[k - |q.records|];
      assert e == ObjectEntry(o) && o in Distinct(q.objects) && o in q.objects;
    }
  }

  lemma CollectedIsListed(codec: Codec, q: Request, e: TransferEntry)
    requires codec.Lawful() && Passes(codec, q) && e in Collected(codec, q)
    ensures ListedName(e.relativePath)
    ensures SafeRelative(e.relativePath) ==> SplitOutputRelative(e.relativePath).Some?
  {
    hide Passes, ListedName, SplitOutputRelative, ValidRelativePath, Codec.Lawful, Collected, Distinct;
    CollectedKinds(codec, q, e);
    FixedNames();
    assert RECORDS + e.sha256 == "records" + "/" + e.sha256 && OBJECTS + e.sha256 == "objects" + "/" + e.sha256;
    PayloadPath("records", e.sha256);
    PayloadPath("objects", e.sha256);
  }

  lemma InPaths(entries: seq<TransferEntry>, path: string)
    ensures path in EntryPaths(entries) <==> exists e <- entries :: e.relativePath == path
  {
    if path in EntryPaths(entries) {
      var k :| 0 <= k < |entries| && EntryPaths(entries)[k] == path;
      assert entries[k] in entries;
    }
    if e :| e in entries && e.relativePath == path {
      var k :| 0 <= k < |entries| && entries[k] == e;
      assert EntryPaths(entries)[k] == path;
    }
  }

  /** The tree holds the files the manifest lists, and nothing else. */
  lemma TreeIsExpected(codec: Codec, q: Request)
    requires codec.Lawful() && Passes(codec, q)
    ensures EnumerateTree(BundleTree(Plan(codec, q))) == Some(Expected(Manifest(codec, q)))
  {
    hide Passes, ListedName, Codec.Lawful, Collected, PutRecords, PutObjects, Distinct;
    var (t, m) := (BundleTree(Plan(codec, q)), Manifest(codec, q));
    FixedNames();
    forall p <- t.files ensures ListedName(p) && p in Expected(m) {
      if p != TRANSFER_MANIFEST_NAME {
        var e := FileIsCollected(codec, q, p);
        CollectedIsListed(codec, q, e);
        InPaths(m.entries, p);
        assert e in m.entries;
      }
    }
    forall p <- Expected(m) ensures p in t.files {
      if p != TRANSFER_MANIFEST_NAME {
        InPaths(m.entries, p);
        var e :| e in m.entries && e.relativePath == p;
        EntryIsWritten(codec, q, e);
      }
    }
    assert t.files.Keys == Expected(m);
  }

  lemma TreeMatchesManifest(codec: Codec, q: Request)
    requires codec.Lawful() && Passes(codec, q)
    ensures TreeMatches(codec, BundleTree(Plan(codec, q)), Manifest(codec, q))
  {
    var (t, m) := (BundleTree(Plan(codec, q)), Manifest(codec, q));
    hide ManifestShape, Codec.Lawful, Collected, PutRecords, PutObjects, Distinct, EnumerateTree, BundleTree, Plan,
         SplitOutputRelative, SafeRelative, Sum, ObjectsAgree, RecordsDiffer;
    TreeIsExpected(codec, q);
    forall e <- m.entries ensures EntryMatches(codec, t, e) {
      assert e in Collected(codec, q) && ValidTransferEntry(e);
      EntryIsWritten(codec, q, e);
      CollectedIsListed(codec, q, e);
    }
  }

  lemma ManifestIsRead(codec: Codec, q: Request)
    requires codec.Lawful() && Passes(codec, q)
    ensures ReadManifest(codec, BundleTree(Plan(codec, q))) == Some(Manifest(codec, q))
  {
    hide Manifest, ValidTransferManifest, PutRecords, PutObjects, Distinct, Collected, InputFromJson;
    assert BundleTree(Plan(codec, q)).files[TRANSFER_MANIFEST_NAME] == codec.encodeManifest(Manifest(codec, q));
  }

  /** Every object of the record stands for one of the distinct objects of the request. */
  lemma SourceOf(q: Request, r: InputObject) returns (o: PublicObject)
    requires r in Bundle(q).objects
    ensures o in Distinct(q.objects) && o in q.objects && r == ObjectRecord(o)
  {
    hide Distinct, ObjectRecord;
    var sorted := SortBy(Distinct(q.objects), DigestOf);
    var k :| 0 <= k < |sorted| && Bundle(q).objects[k] == r;
    o := sorted[k];
    assert o in sorted;
  }

  /** What preflight decodes from its own bytes is the record it encoded. */
  lemma VerifiedIsBundle(codec: Codec, q: Request)
    requires codec.Lawful() && Passes(codec, q)
    ensures Plan(codec, q).verified == Bundle(q)
  {
    hide ValidTransferManifest, Manifest, ValidInput, Bundle, RecordTotal, ObjectTotal, Distinct, ClaimsHold, RecordsDiffer, ObjectsAgree;
    forall r <- Bundle(q).objects ensures r.size <= MAX_ENTRY_BYTES {
      var o := SourceOf(q, r);
      assert ObjectFits(o);
    }
    assert InputSizesFit(Bundle(q));
  }

  lemma InputIsRead(codec: Codec, q: Request)
    requires codec.Lawful() && Passes(codec, q)
    ensures ReadInput(codec, BundleTree(Plan(codec, q)), Manifest(codec, q)) == Some(Bundle(q))
  {
    hide ValidTransferManifest, PutRecords, PutObjects, Distinct, InputFromJson, Sum, ClaimsHold, ObjectsAgree, RecordsDiffer;
    var (t, m) := (BundleTree(Plan(codec, q)), Manifest(codec, q));
    VerifiedIsBundle(codec, q);
    NamesApart("", "");
    assert t.files[VERIFIED_INPUT_NAME] == BundleBytes(codec, q);
    InputIsCollected(codec, q);
    assert InputRecordEntry(codec, q) in m.entries;
    var e := EntryOf(m.entries, VERIFIED_INPUT_NAME);
    EntryIsWritten(codec, q, e.value);
  }

  lemma ManifestedIsVerified(codec: Codec, q: Request, e: TransferEntry)
    requires codec.Lawful() && Passes(codec, q) && e in Collected(codec, q) && StartsWith(e.relativePath, OBJECTS)
    ensures (e.relativePath, e.size, e.sha256) in VerifiedObjects(Bundle(q))
  {
    hide Passes, Codec.Lawful, Distinct, Collected, Bundle;
    CollectedKinds(codec, q, e);
    NamesApart(e.sha256, "");
    assert e.relativePath[0] == 'o';
    assert e.relativePath == OBJECTS + e.sha256;
    var o :| o in Distinct(q.objects) && e == ObjectEntry(o);
    ObjectIsListed(q, o);
  }

  lemma VerifiedIsManifested(codec: Codec, q: Request, r: InputObject)
    requires r in Bundle(q).objects
    ensures (r.relativePath, r.size, r.sha256) in ManifestedObjects(Manifest(codec, q))
  {
    hide Distinct, Collected, Bundle;
    var o := SourceOf(q, r);
    ObjectIsCollected(codec, q, o);
    assert ObjectEntry(o) in Manifest(codec, q).entries && StartsWith(ObjectPath(o), OBJECTS);
  }

  /** The manifest lists as objects exactly the objects of the verified record. */
  lemma ObjectsAreManifested(codec: Codec, q: Request)
    requires codec.Lawful() && Passes(codec, q)
    ensures ManifestedObjects(Manifest(codec, q)) == VerifiedObjects(Bundle(q))
  {
    hide Passes, Codec.Lawful, Distinct, Collected, Bundle;
    var m := Manifest(codec, q);
    forall e <- m.entries | StartsWith(e.relativePath, OBJECTS)
      ensures (e.relativePath, e.size, e.sha256) in VerifiedObjects(Bundle(q))
    {
      ManifestedIsVerified(codec, q, e);
    }
    forall r <- Bundle(q).objects ensures (r.relativePath, r.size, r.sha256) in ManifestedObjects(m) {
      VerifiedIsManifested(codec, q, r);
    }
  }

  lemma ObjectIsListed(q: Request, o: PublicObject)
    requires o in Distinct(q.objects)
    ensures ObjectRecord(o) in Bundle(q).objects
  {
    hide Distinct, ObjectRecord;
    var sorted := SortBy(Distinct(q.objects), DigestOf);
    var k :| 0 <= k < |sorted| && sorted[k] == o;
    assert Bundle(q).objects[k] == ObjectRecord(o);
  }

  lemma RecordsAreFound(codec: Codec, q: Request, ref: TransferRecordRef)
    requires codec.Lawful() && Passes(codec, q) && ref in Manifest(codec, q).records
    ensures RecordMatches(Manifest(codec, q), ref)
  {
    hide Passes, Codec.Lawful, Distinct;
    var (m, refs) := (Manifest(codec, q), Map(r => RecordRef(codec, r), q.records));
    assert ref in refs;
    var k :| 0 <= k < |refs| && refs[k] == ref;
    var own := RecordEntry(codec, q.records[k]);
    assert Collected(codec, q)[k] == own && own in m.entries;
    var e := EntryOf(m.entries, ref.relativePath).value;
    assert e in Collected(codec, q);
    CollectedKinds(codec, q, e);
    NamesApart(ref.sha256, e.sha256);
    assert e.relativePath == RECORDS + ref.sha256 == RECORDS + e.sha256;
    SamePrefix(RECORDS, ref.sha256, e.sha256);
    assert e.relativePath[..|RECORDS|] == RECORDS;
  }

  /** The writer refines the verifier: the tree written for any request that passes preflight is accepted, and the
      verifier reports the record and the manifest that preflight made. */
  lemma WrittenTreeIsAccepted(codec: Codec, q: Request)
    requires codec.Lawful() && Passes(codec, q)
    ensures var r := VerifyRoot(codec, BundleTree(Plan(codec, q)));
      && r.Some? && r.value.verifiedInput == Plan(codec, q).verified
      && r.value.manifest == Manifest(codec, q) && r.value.manifestBytes == Plan(codec, q).manifestBytes
      && r.value.objectCount == |Plan(codec, q).objects|
  {
    hide Passes, Codec.Lawful, Distinct, Collected, TreeMatches, ReadManifest, ReadInput, ManifestedObjects, VerifiedObjects,
         RecordMatches, PutRecords, PutObjects;
    ManifestIsRead(codec, q);
    TreeMatchesManifest(codec, q);
    InputIsRead(codec, q);
    VerifiedIsBundle(codec, q);
    ObjectsAreManifested(codec, q);
    var m := Manifest(codec, q);
    forall ref <- m.records ensures RecordMatches(m, ref) {
      RecordsAreFound(codec, q, ref);
    }
    SortKeepsLength(Distinct(q.objects), DigestOf);
  }

  lemma {:induction false} SortKeepsLength<T(!new)>(xs: seq<T>, key: T -> string)
    ensures |SortBy(xs, key)| == |xs|
  {
    if xs != [] {
      SortKeepsLength(xs[..|xs| - 1], key);
      InsertLength(xs[|xs| - 1], SortBy(xs[..|xs| - 1], key), key);
    }
  }

  lemma {:induction false} InsertLength<T(!new)>(x: T, xs: seq<T>, key: T -> string)
    ensures |Insert(x, xs, key)| == |xs| + 1
  {
    if xs != [] { InsertLength(x, xs[1..], key); }
  }
}
