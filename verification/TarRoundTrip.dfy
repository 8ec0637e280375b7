/** What the parser makes of a printed archive, entry by entry: parsing after printing is a fold over the entries,
    whatever the policy, and gives back exactly the entries of every admissible list. */
module TarRoundTrip {
  import opened Wrappers
  import opened Text
  import opened JsonScan
  import opened Inventory
  import opened TarHeader
  import opened TarArchive
  import opened TarFrames
  import opened TarPrinter
  import opened TarRules

  // ----- One entry

  /** The name a member goes by: its own, or a pending long name that starts with it. */
  function EntryName(policy: ArchivePolicy, e: TarEntry, st: State): Option<string> {
    match st.pendingLongName
    case Some(name) => if |name| > 100 && e.path == name[..100] then Some(name) else None
    case None => if policy.LegacyStarNpm? || e.path == "" then None else Some(e.path)
  }

  function EntryMember(policy: ArchivePolicy, e: TarEntry, st: State): Option<Member> {
    match EntryName(policy, e, st)
    case None => None
    case Some(name) =>
      if name in st.rawPaths then None
      else
        match PlacedPath(policy, name, e.kind)
        case None => None
        case Some((path, alias)) =>
          if !RootOk(policy, RootOf(path), st.root) || st.members + 1 > 32768 || |e.bytes| > 536870912
             || st.expanded + |e.bytes| > 8589934592
          then None
          else Some(Member(name, path, alias, |e.bytes|, 0x1a4, 0))
  }

  function EntryFile(r: Readers, policy: ArchivePolicy, e: TarEntry, path: string): Option<Regular> {
    var capture := if policy.IsNpm() then CaptureLimit(path) else None;
    if capture.Some? && (e.bytes == [] || |e.bytes| > capture.value.1) then None
    else
      Some(Regular(EntryFact(r, e), if capture.Some? then Some((capture.value.0, e.bytes)) else None))
  }

  function EntryFact(r: Readers, e: TarEntry): RegularMemberFact { RegularMemberFact(0x1a4, |e.bytes|, r.sha(e.bytes)) }

  /** The parser's state after one more printed entry. */
  function ReadEntry(r: Readers, policy: ArchivePolicy, e: TarEntry, st: State): Option<State> {
    if policy.LegacyNodeTarNpm? || st.headers + 1 > 65536 then None
    else
      var counted := st.(headers := st.headers + 1);
      if e.IsLongName() then
        if !policy.ExactNode? || st.pendingLongName.Some? || e.path != "././@LongLink" || e.bytes == [] || |e.bytes| > 513 then None
        else
          match LongName(e.bytes)
          case None => None
          case Some(name) => Some(counted.(pendingLongName := Some(name), gnuLongNames := st.gnuLongNames + 1))
      else
        match EntryMember(policy, e, counted)
        case None => None
        case Some(m) =>
          var admitted := Admit(counted, m);
          if e.IsFile() then
            match EntryFile(r, policy, e, m.path)
            case None => None
            case Some(file) => AddFile(admitted, m, file)
          else if e.IsDirectory() && e.bytes == [] && !m.alias then
            Some(admitted.(directoryCount := st.directoryCount + 1))
          else if e.IsLink() && policy.ExactNode? && e.bytes == [] && !m.alias
                  && e.target != "" && !StartsWith(e.target, "/") && '\\' !in e.target then
            Some(admitted.(symlinkCount := st.symlinkCount + 1, links := st.links[m.path := e.target]))
          else None
  }

  /** No pax header is pending, and a pending long name is a name. */
  predicate Plain(st: State) { st.pendingPax.None? && (st.pendingLongName.Some? ==> IsName(st.pendingLongName.value)) }

  lemma PrintedParts(s: Bytes, p: nat, e: TarEntry)
    requires Printable(e) && p + |PrintEntry(e)| <= |s| && s[p..p + |PrintEntry(e)|] == PrintEntry(e)
    ensures |PrintEntry(e)| == BLOCK + |e.bytes| + Padding(|e.bytes|)
    ensures s[p..p + BLOCK] == Header(e) && s[p + BLOCK..p + BLOCK + |e.bytes|] == e.bytes
  {
    hide Header, Printable;
    var text := PrintEntry(e);
    assert text[0..BLOCK] == Header(e) && text[BLOCK..BLOCK + |e.bytes|] == e.bytes;
    SliceOfSlice(s, p, |text|, 0, BLOCK);
    SliceOfSlice(s, p, |text|, BLOCK, BLOCK + |e.bytes|);
  }

  lemma SliceOfSlice(s: Bytes, p: nat, n: nat, i: nat, j: nat)
    requires p + n <= |s| && i <= j <= n
    ensures s[p..p + n][i..j] == s[p + i..p + j]
  {
    var (a, b) := (s[p..p + n][i..j], s[p + i..p + j]);
    assert forall k | 0 <= k < |a| :: a[k] == b[k];
  }

  lemma NameOfPrint(policy: ArchivePolicy, e: TarEntry, st: State)
    requires Printable(e) && Plain(st)
    ensures RawPath(policy, Header(e), st.pendingLongName, PaxHeader(None, None)) ==
      match EntryName(policy, e, st) case None => None case Some(name) => Some((name, 0))
  {
    hide Header, TarPath, LegacyStarTimes, Printable, LongNameHeaderOk, IsName;
    PathIsRead(e);
    if st.pendingLongName.Some? { LongNameIsRepeated(e, st.pendingLongName.value); }
  }

  lemma MemberOfPrint(policy: ArchivePolicy, e: TarEntry, st: State)
    requires Printable(e) && Plain(st)
    ensures ReadMember(policy, Header(e), |e.bytes|, st) == EntryMember(policy, e, st)
  {
    hide Header, PlacedPath, RootOf, RootOk, ParseTarNumber, RawPath, EntryName, DataSize, Printable, IsName;
    NameOfPrint(policy, e, st);
    NumbersAreRead(e, policy);
    HeaderIsNotZero(e);
  }

  lemma EntryIsRead(r: Readers, policy: ArchivePolicy, s: Bytes, h: Bytes, p: nat, e: TarEntry, st: State)
    requires Printable(e) && Plain(st) && st.headers > 0 && !policy.LegacyNodeTarNpm? && st.headers <= 65536 && !e.IsLongName()
    requires h == Header(e) && BodyFits(s, p, |e.bytes|) && s[p..p + |e.bytes|] == e.bytes
    ensures MemberRecord(r, policy, s, h, p, |e.bytes|, st) == ReadEntry(r, policy, e, st.(headers := st.headers - 1))
  {
    hide Header, ReadMember, CaptureLimit, AddFile, Admit, Printable, PlacedPath, RootOk, RootOf, LongName, IsName;
    assert st.(headers := st.headers - 1).(headers := st.headers) == st;
    MemberOfPrint(policy, e, st);
    HeaderIsNotZero(e);
    LinkIsRead(e);
  }

  lemma LongNameEntryIsRead(r: Readers, policy: ArchivePolicy, s: Bytes, h: Bytes, p: nat, e: TarEntry, st: State)
    requires Printable(e) && Plain(st) && st.headers > 0 && !policy.LegacyNodeTarNpm? && st.headers <= 65536 && e.IsLongName()
    requires h == Header(e) && BodyFits(s, p, |e.bytes|) && s[p..p + |e.bytes|] == e.bytes
    ensures LongNameRecord(policy, s, h, p, |e.bytes|, st) == ReadEntry(r, policy, e, st.(headers := st.headers - 1))
  {
    hide Header, Printable, LongName, IsName, TarPath, EntryMember;
    assert st.(headers := st.headers - 1).(headers := st.headers) == st;
    PathIsRead(e);
  }

  /** The record of a printed entry moves the parser's state as that entry does, or fails with it. */
  lemma RecordOfPrint(r: Readers, policy: ArchivePolicy, s: Bytes, p: nat, e: TarEntry, st: State)
    requires Printable(e) && Plain(st) && p + |PrintEntry(e)| <= |s| && s[p..p + |PrintEntry(e)|] == PrintEntry(e)
    ensures p + BLOCK <= |s| && !IsZeroBlock(s, p) && RecordEnd(s, p) == p + |PrintEntry(e)|
    ensures Record(r, policy, s, p, st) == ReadEntry(r, policy, e, st)
  {
    assert !e.IsPax();
    hide Header, MemberRecord, LongNameRecord, PrintEntry, ParseTarNumber, ValidTarChecksum, NumericHeaderOk, DataSize, EntryMember,
         EntryFile, AddFile, LongName, Printable, IsName;
    PrintedParts(s, p, e);
    HeaderIsNotZero(e);
    ChecksumIsValid(e);
    NumbersAreRead(e, policy);
    var counted := st.(headers := st.headers + 1);
    if counted.headers <= 65536 && !policy.LegacyNodeTarNpm? {
      if e.IsLongName() {
        LongNameEntryIsRead(r, policy, s, Header(e), p + BLOCK, e, counted);
      } else {
        EntryIsRead(r, policy, s, Header(e), p + BLOCK, e, counted);
      }
      assert counted.(headers := counted.headers - 1) == st;
    }
  }

  // ----- The archive

  /** The parser's state after all printed entries. */
  function ReadEntries(r: Readers, policy: ArchivePolicy, entries: seq<TarEntry>): Option<State> {
    if entries == [] then Some(Start())
    else
      match ReadEntries(r, policy, entries[..|entries| - 1])
      case None => None
      case Some(st) => ReadEntry(r, policy, entries[|entries| - 1], st)
  }

  lemma {:induction false} ReadLeavesPlain(r: Readers, policy: ArchivePolicy, entries: seq<TarEntry>)
    ensures ReadEntries(r, policy, entries).Some? ==> Plain(ReadEntries(r, policy, entries).value)
  {
    hide ReadEntry;
    if entries != [] {
      ReadLeavesPlain(r, policy, entries[..|entries| - 1]);
      if ReadEntries(r, policy, entries[..|entries| - 1]).Some? {
        EntryLeavesPlain(r, policy, entries[|entries| - 1], ReadEntries(r, policy, entries[..|entries| - 1]).value);
      }
    }
  }

  lemma EntryLeavesPlain(r: Readers, policy: ArchivePolicy, e: TarEntry, st: State)
    requires Plain(st)
    ensures ReadEntry(r, policy, e, st).Some? ==> Plain(ReadEntry(r, policy, e, st).value)
  {
    hide EntryMember, EntryFile, LongName, IsName;
    if e.IsLongName() && LongName(e.bytes).Some? { LongNameMeans(e.bytes, LongName(e.bytes).value); }
  }

  lemma ReadNext(r: Readers, policy: ArchivePolicy, entries: seq<TarEntry>, i: nat)
    requires i < |entries|
    ensures ReadEntries(r, policy, entries[..i + 1]) ==
      match ReadEntries(r, policy, entries[..i])
      case None => None
      case Some(st) => ReadEntry(r, policy, entries[i], st)
  {
    hide ReadEntry;
    assert entries[..i + 1][..i] == entries[..i];
  }

  lemma {:induction false} FailureStays(r: Readers, policy: ArchivePolicy, entries: seq<TarEntry>, i: nat)
    requires i <= |entries| && ReadEntries(r, policy, entries[..i]).None?
    ensures ReadEntries(r, policy, entries).None?
    decreases |entries| - i
  {
    hide ReadEntry;
    if i == |entries| {
      assert entries[..i] == entries;
    } else {
      ReadNext(r, policy, entries, i);
      FailureStays(r, policy, entries, i + 1);
    }
  }

  lemma FileIsThere(s: Bytes, whole: Bytes, before: Bytes, text: Bytes)
    requires whole <= s && before + text <= whole
    ensures |before| + |text| <= |s| && s[|before|..|before| + |text|] == text
  {
    assert s[..|before + text|] == before + text;
    assert s[|before|..|before| + |text|] == s[..|before + text|][|before|..];
  }

  lemma ZeroBlockAt(s: Bytes, text: Bytes, q: nat)
    requires s == text + Zeros(2 * BLOCK) && |text| <= q && q + BLOCK <= |s|
    ensures IsZeroBlock(s, q)
  {
    forall k | q <= k < q + BLOCK ensures s[k] == 0 {
      assert s[k] == Zeros(2 * BLOCK)[k - |text|];
    }
  }

  lemma TwoZeroBlocks(s: Bytes, p: nat)
    requires p + 2 * BLOCK == |s| && IsZeroBlock(s, p) && IsZeroBlock(s, p + BLOCK)
    ensures ZeroBlocks(s, p) == Some(2)
  {
    hide IsZeroBlock;
    assert ZeroBlocks(s, p + BLOCK + BLOCK) == Some(0);
    assert ZeroBlocks(s, p + BLOCK) == Some(1);
  }

  lemma EndIsZero(s: Bytes, text: Bytes)
    requires s == text + Zeros(2 * BLOCK)
    ensures |text| + BLOCK <= |s| && IsZeroBlock(s, |text|) && ZeroBlocks(s, |text|) == Some(2)
  {
    hide IsZeroBlock, ZeroBlocks, Zeros;
    ZeroBlockAt(s, text, |text|);
    ZeroBlockAt(s, text, |text| + BLOCK);
    TwoZeroBlocks(s, |text|);
  }

  function WithEnd(st: Option<State>, end: nat): Option<(State, nat)> {
    match st case None => None case Some(last) => Some((last, end))
  }

  lemma StepOn(r: Readers, policy: ArchivePolicy, s: Bytes, p: nat, st: State)
    requires p + BLOCK <= |s| && !IsZeroBlock(s, p)
    ensures Record(r, policy, s, p, st).None? ==> Records(r, policy, s, p, st).None?
    ensures Record(r, policy, s, p, st).Some? ==>
      Records(r, policy, s, p, st) == Records(r, policy, s, RecordEnd(s, p), Record(r, policy, s, p, st).value)
  {
    hide Record, IsZeroBlock;
    if Record(r, policy, s, p, st).Some? { RecordFits(r, policy, s, p, st); }
  }

  /** From the `i`th entry on, the parser reads the rest and stops at the end marker, or fails as the entries do. */
  lemma {:induction false} RestIsRead(r: Readers, policy: ArchivePolicy, entries: seq<TarEntry>, i: nat)
    requires (forall e <- entries :: Printable(e)) && i <= |entries| && ReadEntries(r, policy, entries[..i]).Some?
    ensures forall e <- entries[..i] :: Printable(e)
    ensures Records(r, policy, PrintTar(entries), |PrintEntries(entries[..i])|, ReadEntries(r, policy, entries[..i]).value)
         == WithEnd(ReadEntries(r, policy, entries), |PrintEntries(entries)|)
    decreases |entries| - i
  {
    hide Record, PrintEntry, PrintEntries, Printable, ReadEntry, RecordEnd, ReadEntries, Records;
    PrintedPrefix(entries, i);
    ReadLeavesPlain(r, policy, entries[..i]);
    var (s, p, st) := (PrintTar(entries), |PrintEntries(entries[..i])|, ReadEntries(r, policy, entries[..i]).value);
    if i == |entries| {
      assert entries[..i] == entries;
      EndIsZero(s, PrintEntries(entries));
      StopAt(r, policy, s, p, st);
    } else {
      PrintedNext(entries, i);
      PrintedPrefix(entries, i + 1);
      FileIsThere(s, PrintEntries(entries), PrintEntries(entries[..i]), PrintEntry(entries[i]));
      RecordOfPrint(r, policy, s, p, entries[i], st);
      StepOn(r, policy, s, p, st);
      ReadNext(r, policy, entries, i);
      if ReadEntries(r, policy, entries[..i + 1]).Some? {
        RestIsRead(r, policy, entries, i + 1);
      } else {
        FailureStays(r, policy, entries, i + 1);
      }
    }
  }

  lemma StopAt(r: Readers, policy: ArchivePolicy, s: Bytes, p: nat, st: State)
    requires p + BLOCK <= |s| && IsZeroBlock(s, p)
    ensures Records(r, policy, s, p, st) == Some((st, p))
  {
    hide IsZeroBlock, Record;
  }

  /** Parsing after printing is the fold over the entries and the final checks, for every policy and every list. */
  lemma PrintedArchiveMeans(r: Readers, policy: ArchivePolicy, entries: seq<TarEntry>)
    requires forall e <- entries :: Printable(e)
    ensures Parsed(r, policy, PrintTar(entries)) ==
      match ReadEntries(r, policy, entries)
      case None => None
      case Some(st) => Finish(policy, st)
  {
    hide Records, PrintEntries, ReadEntry, Printable, ZeroBlocks, Finish;
    ReadNothing(r, policy, entries);
    RestIsRead(r, policy, entries, 0);
    EndIsZero(PrintTar(entries), PrintEntries(entries));
  }

  lemma ReadNothing(r: Readers, policy: ArchivePolicy, entries: seq<TarEntry>)
    ensures entries[..0] == [] && PrintEntries([]) == [] && ReadEntries(r, policy, entries[..0]) == Some(Start())
  {}

  // ----- Safe paths under the plain npm policies

  predicate IsPlain(policy: ArchivePolicy) { policy.RootNpm? || policy.TransitiveNpm? || policy.CanonicalPaxNpm? }

  /** The path of an entry; a directory may be spelled with a closing slash. */
  function Place(e: TarEntry): string { if e.IsDirectory() then WithoutSlash(e.path) else e.path }

  function Role(e: TarEntry): Option<string> {
    if !e.IsFile() || CaptureLimit(e.path).None? then None else Some(CaptureLimit(e.path).value.0)
  }

  /** A file within its bounds, or an empty directory. A manifest or shrinkwrap directly under the root must not be
      empty and keeps to its own bound. */
  predicate Fits(e: TarEntry) {
    if e.IsFile() then
      && |e.bytes| <= 536870912
      && (CaptureLimit(e.path).Some? ==> 0 < |e.bytes| <= CaptureLimit(e.path).value.1)
    else e.IsDirectory() && e.bytes == []
  }

  predicate SafeEntry(e: TarEntry) { Printable(e) && SafeArchivePath(Place(e)) }

  /** What the next entry needs of the state. */
  predicate Room(policy: ArchivePolicy, st: State, e: TarEntry) {
    && Fits(e) && e.path !in st.rawPaths && (e.IsFile() ==> e.path !in st.regularFacts)
    && st.members < 32768 && st.expanded + |e.bytes| <= 8589934592
    && (st.root.Some? ==> st.root.value == RootOf(Place(e))) && (policy.RootNpm? ==> RootOf(Place(e)) == "package")
    && (Role(e).Some? ==> Role(e).value !in st.captured)
  }

  function After(r: Readers, st: State, e: TarEntry): State {
    var next := st.(headers := st.headers + 1, members := st.members + 1, rawPaths := st.rawPaths + {e.path},
                    root := Some(RootOf(Place(e))), expanded := st.expanded + |e.bytes|);
    if e.IsFile() then
      next.(regularCount := st.regularCount + 1, regularFacts := st.regularFacts[e.path := EntryFact(r, e)],
            captured := if Role(e).Some? then st.captured[Role(e).value := e.bytes] else st.captured)
    else next.(directoryCount := st.directoryCount + 1)
  }

  lemma SafeRoot(path: string)
    requires SafeArchivePath(path)
    ensures RootOf(path) != "" && path != ""
  {
    assert Split(path, "/")[0] in Split(path, "/");
  }

  lemma SafeMember(policy: ArchivePolicy, e: TarEntry, st: State)
    requires SafeEntry(e) && IsPlain(policy) && Idle(st)
    ensures EntryMember(policy, e, st) ==
      if e.path in st.rawPaths || !RootOk(policy, RootOf(Place(e)), st.root) || st.members + 1 > 32768
         || |e.bytes| > 536870912 || st.expanded + |e.bytes| > 8589934592
      then None else Some(Member(e.path, Place(e), false, |e.bytes|, 0x1a4, 0))
  {
    hide Printable, ValidRelativePath, RootOf, RootOk;
    SafeRoot(Place(e));
    assert PlacedPath(policy, e.path, e.kind) == Some((Place(e), false));
  }

  /** A safe entry is read exactly when there is room for it. */
  lemma SafeEntryIsRead(r: Readers, policy: ArchivePolicy, e: TarEntry, st: State)
    requires SafeEntry(e) && IsPlain(policy) && Idle(st) && st.headers == st.members
    ensures ReadEntry(r, policy, e, st) == if Room(policy, st, e) then Some(After(r, st, e)) else None
  {
    hide Printable, EntryMember, CaptureLimit, RootOf, SafeArchivePath;
    SafeMember(policy, e, st.(headers := st.headers + 1));
    SafeRoot(Place(e));
  }

  // ----- Admissible lists

  function Total(entries: seq<TarEntry>): nat {
    if entries == [] then 0 else Total(entries[..|entries| - 1]) + |entries[|entries| - 1].bytes|
  }

  function FileCount(entries: seq<TarEntry>): nat {
    if entries == [] then 0
    else FileCount(entries[..|entries| - 1]) + if entries[|entries| - 1].IsFile() then 1 else 0
  }

  predicate Distinct(entries: seq<TarEntry>) {
    forall i, j | 0 <= i < j < |entries| :: entries[i].path != entries[j].path
  }

  /** Entries that fit, with distinct names, under one root, within the bounds of the whole archive. */
  predicate Bounded(policy: ArchivePolicy, entries: seq<TarEntry>) {
    && (forall e <- entries :: Fits(e) && RootOf(Place(e)) == RootOf(Place(entries[0])))
    && (policy.RootNpm? && entries != [] ==> RootOf(Place(entries[0])) == "package")
    && Distinct(entries) && |entries| <= 32768 && Total(entries) <= 8589934592
  }

  /** ... one of which is a package.json directly under the root. */
  predicate Admissible(policy: ArchivePolicy, entries: seq<TarEntry>) {
    Bounded(policy, entries) && exists e <- entries :: Role(e) == Some("package.json")
  }

  lemma SameRoleSamePath(p: string, q: string)
    requires RootOf(p) == RootOf(q) && CaptureLimit(p).Some? && CaptureLimit(q).Some?
    requires CaptureLimit(p).value.0 == CaptureLimit(q).value.0
    ensures p == q
  {
    hide Split;
    var (a, b) := (Split(p, "/"), Split(q, "/"));
    assert "package.json" != "npm-shrinkwrap.json";
    assert a == [a[0], a[1]] && b == [b[0], b[1]] && a == b;
    JoinInvertsSplit(p, "/");
    JoinInvertsSplit(q, "/");
  }

  /** The facts kept are exactly those of the files read so far. */
  ghost predicate HoldsFacts(r: Readers, facts: map<string, RegularMemberFact>, entries: seq<TarEntry>) {
    && (forall path <- facts :: exists e <- entries :: e.IsFile() && e.path == path)
    && (forall e <- entries | e.IsFile() :: e.path in facts && facts[e.path] == EntryFact(r, e))
  }

  /** The contents kept are exactly those of the files with a role. */
  ghost predicate HoldsContents(captured: map<string, Bytes>, entries: seq<TarEntry>) {
    && (forall role <- captured :: exists e <- entries :: Role(e) == Some(role))
    && (forall e <- entries | Role(e).Some? :: Role(e).value in captured && captured[Role(e).value] == e.bytes)
  }

  ghost predicate Holds(r: Readers, st: State, entries: seq<TarEntry>) {
    && Idle(st) && st.aliases == [] && st.links == map[] && st.members == st.headers == |entries|
    && st.regularCount == FileCount(entries) && st.directoryCount == |entries| - FileCount(entries)
    && st.gnuLongNames == st.paxHeaders == st.symlinkCount == 0 && st.expanded == Total(entries)
    && (forall path :: path in st.rawPaths <==> exists e <- entries :: e.path == path)
    && HoldsFacts(r, st.regularFacts, entries) && HoldsContents(st.captured, entries)
    && st.root == (if entries == [] then None else Some(RootOf(Place(entries[0]))))
  }

  lemma NothingHolds(r: Readers)
    ensures Holds(r, Start(), [])
  {}

  lemma InMore(entries: seq<TarEntry>, e: TarEntry, g: TarEntry)
    ensures g in entries + [e] <==> g in entries || g == e
  {}

  lemma FactsHoldNext(r: Readers, facts: map<string, RegularMemberFact>, entries: seq<TarEntry>, e: TarEntry)
    requires HoldsFacts(r, facts, entries) && (e.IsFile() ==> e.path !in facts)
    ensures HoldsFacts(r, if e.IsFile() then facts[e.path := EntryFact(r, e)] else facts, entries + [e])
  {
    hide EntryFact;
    var (next, all) := (if e.IsFile() then facts[e.path := EntryFact(r, e)] else facts, entries + [e]);
    InMore(entries, e, e);
    forall path <- next ensures exists g <- all :: g.IsFile() && g.path == path {
      if path in facts {
        var g :| g in entries && g.IsFile() && g.path == path;
        InMore(entries, e, g);
      }
    }
    forall g <- all | g.IsFile() ensures g.path in next && next[g.path] == EntryFact(r, g) { InMore(entries, e, g); }
  }

  lemma ContentsHoldNext(captured: map<string, Bytes>, entries: seq<TarEntry>, e: TarEntry)
    requires HoldsContents(captured, entries) && (Role(e).Some? ==> Role(e).value !in captured)
    ensures HoldsContents(if Role(e).Some? then captured[Role(e).value := e.bytes] else captured, entries + [e])
  {
    hide Role;
    var (next, all) := (if Role(e).Some? then captured[Role(e).value := e.bytes] else captured, entries + [e]);
    InMore(entries, e, e);
    forall role <- next ensures exists g <- all :: Role(g) == Some(role) {
      if role in captured {
        var g :| g in entries && Role(g) == Some(role);
        InMore(entries, e, g);
      }
    }
    forall g <- all | Role(g).Some? ensures Role(g).value in next && next[Role(g).value] == g.bytes { InMore(entries, e, g); }
  }

  lemma HoldsNext(r: Readers, policy: ArchivePolicy, st: State, entries: seq<TarEntry>, e: TarEntry)
    requires Holds(r, st, entries) && Room(policy, st, e)
    ensures Holds(r, After(r, st, e), entries + [e])
  {
    hide CaptureLimit, RootOf, EntryFact, Place, HoldsFacts, HoldsContents, Fits;
    var (next, all) := (After(r, st, e), entries + [e]);
    FactsHoldNext(r, st.regularFacts, entries, e);
    ContentsHoldNext(st.captured, entries, e);
    assert all[..|entries|] == entries;
    if entries != [] { assert all[0] == entries[0]; }
    forall path ensures path in next.rawPaths <==> exists g <- all :: g.path == path {
      if g :| g in all && g.path == path { InMore(entries, e, g); }
      if path in st.rawPaths {
        var g :| g in entries && g.path == path;
        InMore(entries, e, g);
      }
      InMore(entries, e, e);
    }
  }

  lemma LastIsNew(policy: ArchivePolicy, entries: seq<TarEntry>, e: TarEntry)
    requires Bounded(policy, entries + [e])
    ensures forall g <- entries :: g.path != e.path && RootOf(Place(g)) == RootOf(Place(e))
    ensures Fits(e) && |entries| < 32768 && Total(entries) + |e.bytes| <= 8589934592
    ensures policy.RootNpm? ==> RootOf(Place(e)) == "package"
  {
    hide RootOf, Place, Fits;
    var all := entries + [e];
    assert all[..|entries|] == entries && all[|entries|] == e;
    assert e in all && all[0] in all;
    forall g <- entries ensures g.path != e.path && RootOf(Place(g)) == RootOf(Place(e)) {
      var k :| 0 <= k < |entries| && entries[k] == g;
      assert all[k] == g;
    }
  }

  lemma NameIsNew(r: Readers, facts: map<string, RegularMemberFact>, entries: seq<TarEntry>, e: TarEntry)
    requires HoldsFacts(r, facts, entries) && forall g <- entries :: g.path != e.path
    ensures e.path !in facts
  {
    hide EntryFact;
  }

  lemma BoundedNeedsRoom(r: Readers, policy: ArchivePolicy, st: State, entries: seq<TarEntry>, e: TarEntry)
    requires Holds(r, st, entries) && Bounded(policy, entries + [e])
    ensures Room(policy, st, e)
  {
    hide CaptureLimit, RootOf, EntryFact, Place, Fits, Total, FileCount, Role, HoldsContents, HoldsFacts, Bounded;
    LastIsNew(policy, entries, e);
    NameIsNew(r, st.regularFacts, entries, e);
    if entries != [] { assert entries[0] in entries; }
    RoleIsNew(st.captured, entries, e);
  }

  lemma RoomKeepsBounds(r: Readers, policy: ArchivePolicy, st: State, entries: seq<TarEntry>, e: TarEntry)
    requires Holds(r, st, entries) && Bounded(policy, entries) && Room(policy, st, e)
    ensures Bounded(policy, entries + [e])
  {
    hide CaptureLimit, RootOf, EntryFact, Place, Fits, FileCount, Role, HoldsContents, HoldsFacts;
    var all := entries + [e];
    assert all[..|entries|] == entries && all[|entries|] == e;
    if entries != [] { assert all[0] == entries[0]; }
    forall g <- all ensures Fits(g) && RootOf(Place(g)) == RootOf(Place(all[0])) { InMore(entries, e, g); }
    forall i, j | 0 <= i < j < |all| ensures all[i].path != all[j].path {
      assert all[i] == entries[i] && entries[i] in entries;
      if j < |entries| { assert all[j] == entries[j]; }
    }
  }

  lemma RoleIsNew(captured: map<string, Bytes>, entries: seq<TarEntry>, e: TarEntry)
    requires HoldsContents(captured, entries)
    requires forall g <- entries :: g.path != e.path && RootOf(Place(g)) == RootOf(Place(e))
    ensures Role(e).Some? ==> Role(e).value !in captured
  {
    hide CaptureLimit, RootOf;
    if Role(e).Some? && Role(e).value in captured {
      var g :| g in entries && Role(g) == Role(e);
      RolesDiffer(g, e);
      assert false;
    }
  }

  lemma RolesDiffer(g: TarEntry, e: TarEntry)
    requires g.path != e.path && RootOf(Place(g)) == RootOf(Place(e)) && Role(g).Some?
    ensures Role(g) != Role(e)
  {
    hide CaptureLimit, RootOf;
    if Role(g) == Role(e) { SameRoleSamePath(g.path, e.path); }
  }

  lemma {:induction false} BoundedPrefix(policy: ArchivePolicy, entries: seq<TarEntry>, i: nat)
    requires i <= |entries| && Bounded(policy, entries)
    ensures Bounded(policy, entries[..i])
  {
    hide RootOf, Place, Fits;
    TotalOfPrefix(entries, i);
    forall e <- entries[..i] ensures e in entries { InPrefix(entries, i, e); }
    if i > 0 { assert entries[..i][0] == entries[0]; }
  }

  lemma {:induction false} TotalOfPrefix(entries: seq<TarEntry>, i: nat)
    requires i <= |entries|
    ensures Total(entries[..i]) <= Total(entries)
    decreases |entries| - i
  {
    if i < |entries| {
      assert entries[..i + 1][..i] == entries[..i];
      TotalOfPrefix(entries, i + 1);
    } else {
      assert entries[..i] == entries;
    }
  }

  lemma BoundedFront(policy: ArchivePolicy, before: seq<TarEntry>, e: TarEntry)
    requires !Bounded(policy, before)
    ensures !Bounded(policy, before + [e])
  {
    hide Bounded;
    assert (before + [e])[..|before|] == before;
    if Bounded(policy, before + [e]) { BoundedPrefix(policy, before + [e], |before|); }
  }

  lemma NoRoomNoBounds(r: Readers, policy: ArchivePolicy, st: State, entries: seq<TarEntry>, e: TarEntry)
    requires Holds(r, st, entries) && !Room(policy, st, e)
    ensures !Bounded(policy, entries + [e])
  {
    hide Bounded, Room, Holds;
    if Bounded(policy, entries + [e]) { BoundedNeedsRoom(r, policy, st, entries, e); }
  }

  /** The fold over safe entries goes through exactly on bounded lists, and the state then holds exactly the list. */
  lemma {:induction false} SafeEntriesAreRead(r: Readers, policy: ArchivePolicy, entries: seq<TarEntry>, i: nat)
    requires IsPlain(policy) && (forall e <- entries :: SafeEntry(e)) && i <= |entries|
    ensures ReadEntries(r, policy, entries[..i]).Some? <==> Bounded(policy, entries[..i])
    ensures Bounded(policy, entries[..i]) ==> Holds(r, ReadEntries(r, policy, entries[..i]).value, entries[..i])
  {
    hide ReadEntry, ReadEntries, SafeEntry, Bounded, Holds, Room, After;
    if i == 0 {
      NoEntries(r, policy, entries);
      NothingHolds(r);
    } else {
      var (before, e) := (entries[..i - 1], entries[i - 1]);
      assert e in entries && entries[..i] == before + [e];
      SafeEntriesAreRead(r, policy, entries, i - 1);
      ReadNext(r, policy, entries, i - 1);
      if Bounded(policy, before) {
        var st := ReadEntries(r, policy, before).value;
        HoldsIsIdle(r, st, before);
        SafeEntryIsRead(r, policy, e, st);
        if Room(policy, st, e) {
          RoomKeepsBounds(r, policy, st, before, e);
          HoldsNext(r, policy, st, before, e);
        } else {
          NoRoomNoBounds(r, policy, st, before, e);
        }
      } else {
        BoundedFront(policy, before, e);
      }
    }
  }

  lemma HoldsIsIdle(r: Readers, st: State, entries: seq<TarEntry>)
    requires Holds(r, st, entries)
    ensures Idle(st) && st.headers == st.members
  {}

  lemma NoEntries(r: Readers, policy: ArchivePolicy, entries: seq<TarEntry>)
    ensures ReadEntries(r, policy, entries[..0]) == Some(Start()) && Bounded(policy, entries[..0]) && entries[..0] == []
  {}

  lemma BoundedFinishes(r: Readers, policy: ArchivePolicy, entries: seq<TarEntry>, st: State)
    requires IsPlain(policy) && Bounded(policy, entries) && Holds(r, st, entries)
    ensures Finish(policy, st).Some? <==> Admissible(policy, entries)
  {
    hide CaptureLimit, RootOf, Place, Fits, Total, FileCount, Distinct;
    if e :| e in entries && Role(e) == Some("package.json") {
      assert "package.json" in st.captured;
    }
    if "package.json" in st.captured {
      var e :| e in entries && Role(e) == Some("package.json");
    }
  }

  /** What was printed: the files' facts and the captured contents, exactly, and the counts. */
  ghost predicate GivesBack(r: Readers, entries: seq<TarEntry>, result: ParsedTar) {
    && result.memberCount == result.physicalHeaderCount == |entries|
    && result.regularCount == FileCount(entries) && result.directoryCount == |entries| - FileCount(entries)
    && result.symlinkCount == result.paxHeaderCount == result.gnuLongNameCount == 0
    && HoldsFacts(r, result.regularFacts, entries) && HoldsContents(result.captured, entries)
  }

  /** Parsing inverts printing: for any printable list of entries with safe paths, the printed archive is accepted
      exactly when the list is admissible, and the parser then gives back exactly what was printed. */
  lemma PrintedArchiveIsRead(r: Readers, policy: ArchivePolicy, entries: seq<TarEntry>)
    requires IsPlain(policy) && forall e <- entries :: SafeEntry(e)
    ensures forall e <- entries :: Printable(e)
    ensures Parsed(r, policy, PrintTar(entries)).Some? <==> Admissible(policy, entries)
    ensures Admissible(policy, entries) ==> GivesBack(r, entries, Parsed(r, policy, PrintTar(entries)).value)
  {
    assert forall e <- entries :: SafeEntry(e) && Printable(e);
    hide ReadEntries, PrintTar, SafeEntry, Printable, Bounded, HoldsFacts, HoldsContents, Parsed, NpmOk;
    SafeEntriesAreRead(r, policy, entries, |entries|);
    assert entries[..|entries|] == entries;
    PrintedArchiveMeans(r, policy, entries);
    if Bounded(policy, entries) {
      BoundedFinishes(r, policy, entries, ReadEntries(r, policy, entries).value);
    }
  }

  /** The two legacy policies refuse every printed archive: it lacks their times or their owner fields. */
  lemma LegacyPoliciesRefuse(r: Readers, policy: ArchivePolicy, entries: seq<TarEntry>)
    requires (policy.LegacyStarNpm? || policy.LegacyNodeTarNpm?) && forall e <- entries :: Printable(e)
    ensures Parsed(r, policy, PrintTar(entries)).None?
  {
    hide PrintTar, Printable, Parsed, NpmOk;
    PrintedArchiveMeans(r, policy, entries);
    if entries != [] {
      ReadNext(r, policy, entries, 0);
      assert entries[..0] == [];
      if ReadEntries(r, policy, entries[..1]).None? { FailureStays(r, policy, entries, 1); }
    }
  }
}
