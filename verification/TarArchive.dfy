/** The streaming tar parser: pending extension headers, block alignment, aliases, bounds and the end of the
    archive. The digest and the reading of pax records are parameters. */
module TarArchive {
  import opened Wrappers
  import opened Text
  import opened JsonScan
  import opened Inventory
  import opened TarHeader

  const MAX_TAR_MEMBERS: nat := 32768
  const MAX_TAR_HEADERS: nat := 65536
  const MAX_TAR_MEMBER_BYTES: nat := 512 * 1024 * 1024
  const MAX_TAR_EXPANDED_BYTES: nat := 8 * 1024 * 1024 * 1024
  const MAX_PAX_BYTES: nat := 256 * 1024
  const MAX_TAR_MANIFEST_BYTES: nat := 64 * 1024
  const MAX_SHRINKWRAP_BYTES: nat := 1024 * 1024
  const CHUNK: nat := 64 * 1024

  const TYPE_NUL: byte := 0x00
  const TYPE_FILE: byte := 0x30
  const TYPE_LINK: byte := 0x32
  const TYPE_DIRECTORY: byte := 0x35
  const TYPE_LONG_NAME: byte := 0x4c
  const TYPE_PAX: byte := 0x78

  datatype ArchivePolicy = RootNpm | TransitiveNpm | LegacyStarNpm | LegacyNodeTarNpm | CanonicalPaxNpm | ExactNode {
    predicate IsNpm() { !ExactNode? }
  }

  datatype RegularMemberFact = RegularMemberFact(mode: nat, size: nat, sha256: string)

  datatype PaxHeader = PaxHeader(path: Option<string>, size: Option<nat>)

  /** SHA-256, and the pax records each policy admits at each index. */
  datatype Readers = Readers(sha: Bytes -> string, parsePax: (Bytes, ArchivePolicy, nat) -> Option<PaxHeader>)

  datatype State = State(
    rawPaths: set<string>, regularFacts: map<string, RegularMemberFact>, aliases: seq<(string, RegularMemberFact)>,
    links: map<string, string>, captured: map<string, Bytes>, root: Option<string>,
    pendingPax: Option<PaxHeader>, pendingLongName: Option<string>,
    headers: nat, gnuLongNames: nat, paxHeaders: nat, members: nat,
    regularCount: nat, directoryCount: nat, symlinkCount: nat, starAlternateTimes: nat, expanded: nat)

  function Start(): State {
    State({}, map[], [], map[], map[], None, None, None, 0, 0, 0, 0, 0, 0, 0, 0, 0)
  }

  datatype ParsedTar = ParsedTar(
    captured: map<string, Bytes>, regularFacts: map<string, RegularMemberFact>, nodeRoot: Option<string>,
    memberCount: nat, physicalHeaderCount: nat, gnuLongNameCount: nat, paxHeaderCount: nat,
    regularCount: nat, directoryCount: nat, symlinkCount: nat)

  // ----- Bodies

  function Padding(size: nat): (n: nat)
    ensures n < BLOCK && (size + n) % BLOCK == 0
  {
    (BLOCK - size % BLOCK) % BLOCK
  }

  /** Where a body of this size that starts at `p` ends, with its padding. */
  function BodyEnd(p: nat, size: nat): nat { p + size + Padding(size) }

  /** A body and its padding are there. */
  predicate BodyFits(s: Bytes, p: nat, size: nat) { BodyEnd(p, size) <= |s| }

  function CaptureLimit(path: string): Option<(string, nat)> {
    var parts := Split(path, "/");
    if |parts| != 2 then None
    else if parts[1] == "package.json" then Some(("package.json", MAX_TAR_MANIFEST_BYTES))
    else if parts[1] == "npm-shrinkwrap.json" then Some(("npm-shrinkwrap.json", MAX_SHRINKWRAP_BYTES))
    else None
  }

  datatype Regular = Regular(fact: RegularMemberFact, captured: Option<(string, Bytes)>)

  function RegularMember(r: Readers, s: Bytes, p: nat, size: nat, mode: nat, capture: Option<(string, nat)>): Option<Regular> {
    if capture.Some? && (size == 0 || size > capture.value.1) then None
    else if !BodyFits(s, p, size) then None
    else
      var body := s[p..p + size];
      Some(Regular(RegularMemberFact(mode, size, r.sha(body)),
                   if capture.Some? then Some((capture.value.0, body)) else None))
  }

  /** Reads, hashes and perhaps keeps a body in chunks of 64 KiB. */
  method ReadRegularMember(r: Readers, s: Bytes, p: nat, size: nat, mode: nat, capture: Option<(string, nat)>)
    returns (result: Option<Regular>, cursor: nat)
    requires p <= |s|
    ensures result == RegularMember(r, s, p, size, mode, capture)
    ensures result.Some? ==> cursor == BodyEnd(p, size)
  {
    cursor := p;
    if capture.Some? && (size == 0 || size > capture.value.1) { return None, cursor; }
    var hashed: Bytes, kept: Bytes, remaining: nat := [], [], size;
    while remaining != 0
      invariant p <= cursor <= |s| && cursor + remaining == p + size
      invariant hashed == s[p..cursor] && (capture.Some? ==> kept == hashed)
      decreases remaining
    {
      var wanted := if remaining <= CHUNK then remaining else CHUNK;
      if cursor + wanted > |s| { return None, cursor; }
      var chunk := s[cursor..cursor + wanted];
      assert s[p..cursor] + chunk == s[p..cursor + wanted];
      hashed := hashed + chunk;
      if capture.Some? { kept := kept + chunk; }
      cursor, remaining := cursor + wanted, remaining - wanted;
    }
    if cursor + Padding(size) > |s| { return None, cursor; }
    cursor := cursor + Padding(size);
    result := Some(Regular(RegularMemberFact(mode, size, r.sha(hashed)),
                           if capture.Some? then Some((capture.value.0, kept)) else None));
  }

  // ----- Headers

  predicate NumericHeaderOk(h: Bytes, policy: ArchivePolicy)
    requires |h| == BLOCK
  {
    && ParseTarNumber(h[100..108]).Some? && ParseTarNumber(h[136..148]).Some?
    && ParseTarNumber(h[329..337]).Some? && ParseTarNumber(h[337..345]).Some?
    && (if policy.LegacyNodeTarNpm? then h[108] >= 0x80 && h[116] >= 0x80
        else ParseTarNumber(h[108..116]).Some? && ParseTarNumber(h[116..124]).Some?)
  }

  function DataSize(h: Bytes): Option<nat>
    requires |h| == BLOCK
  {
    ParseTarNumber(h[124..136])
  }

  function LongName(bytes: Bytes): Option<string> {
    if bytes == [] || bytes[|bytes| - 1] != 0 then None
    else
      var path := bytes[..|bytes| - 1];
      if 0 in path || !ValidUtf8(path) then None
      else
        var text := AsText(path);
        if text == "" || StartsWith(text, "/") || exists c <- text :: c == '\\' || IsControl(c) then None else Some(text)
  }

  function AsBytes(text: string): Bytes
    requires forall c <- text :: c < 256 as char
  {
    seq(|text|, i requires 0 <= i < |text| => (assert text[i] in text; text[i] as int as byte))
  }

  /** The header after a long name repeats its first hundred bytes. */
  predicate LongNameHeaderOk(h: Bytes, name: string)
    requires |h| == BLOCK
  {
    && |name| > 100 && (forall c <- name :: c < 256 as char) && ValidUtf8(AsBytes(name)[..100])
    && AllZero(h[345..500]) && h[..100] == AsBytes(name)[..100]
  }

  const COMMON_TIME: Bytes := [0x31, 0x35, 0x32, 0x30, 0x30, 0x34, 0x35, 0x33, 0x35, 0x32, 0x31, 0x00]
  const ALTERNATE_TIME: Bytes := [0x31, 0x35, 0x32, 0x30, 0x30, 0x34, 0x35, 0x33, 0x35, 0x33, 0x34, 0x00]

  /** How many alternate times an old star header carries. */
  function LegacyStarTimes(h: Bytes): Option<nat>
    requires |h| == BLOCK
  {
    if !AllZero(h[345..476]) || h[488..500] != COMMON_TIME then None
    else if h[476..488] == COMMON_TIME then Some(0)
    else if h[476..488] == ALTERNATE_TIME then Some(1)
    else None
  }

  /** The header after a pax path agrees with it. */
  predicate PaxHeaderOk(policy: ArchivePolicy, h: Bytes, path: string)
    requires |h| == BLOCK
  {
    match policy
    case LegacyNodeTarNpm => TarPath(h) == Some(path)
    case CanonicalPaxNpm =>
      var slash := FindLast(path, "/");
      && slash.Some? && (forall c <- path :: c < 256 as char)
      && (var base := AsBytes(path)[slash.value + 1..];
          && TarString(h[345..500]) == Some(path[..slash.value])
          && (if h[99] == 0 then |base| > 99 && ValidUtf8(base[..99]) && h[..99] == base[..99]
              else |base| > 100 && ValidUtf8(base[..100]) && h[..100] == base[..100]))
    case _ => false
  }

  /** The member's path as it is spelled, and the star times its header carries. */
  function RawPath(policy: ArchivePolicy, h: Bytes, longName: Option<string>, pax: PaxHeader): Option<(string, nat)>
    requires |h| == BLOCK
  {
    if longName.Some? then
      if LongNameHeaderOk(h, longName.value) then Some((longName.value, 0)) else None
    else if policy.LegacyStarNpm? then
      match (LegacyStarTimes(h), TarString(h[..100]))
      case (Some(times), Some(name)) => if name == "" then None else Some((name, times))
      case _ => None
    else if pax.path.Some? then
      if PaxHeaderOk(policy, h, pax.path.value) then Some((pax.path.value, 0)) else None
    else
      match TarPath(h)
      case None => None
      case Some(path) => Some((path, 0))
  }

  function WithoutSlash(path: string): string {
    if path != "" && path[|path| - 1] == '/' then path[..|path| - 1] else path
  }

  /** The canonical path, and whether the member is a dotted alias of it. */
  function PlacedPath(policy: ArchivePolicy, raw: string, typeFlag: byte): (r: Option<(string, bool)>)
    ensures r.Some? ==> SafeArchivePath(r.value.0)
  {
    var input := if typeFlag == TYPE_DIRECTORY then WithoutSlash(raw) else raw;
    if policy.IsNpm() then NormalizeNpmPath(input)
    else if SafeArchivePath(input) then Some((input, false))
    else None
  }

  function RootOf(path: string): string { Split(path, "/")[0] }

  predicate EndsWith(s: string, suffix: string) { |suffix| <= |s| && s[|s| - |suffix|..] == suffix }

  /** One root for the whole archive, of the shape the policy asks for. */
  predicate RootOk(policy: ArchivePolicy, root: string, observed: Option<string>) {
    && root != "" && (observed.Some? ==> observed.value == root)
    && (policy.RootNpm? ==> root == "package")
    && (policy.ExactNode? ==> StartsWith(root, "node-v") && EndsWith(root, "-linux-x64"))
  }

  predicate IsFileType(t: byte) { t == TYPE_NUL || t == TYPE_FILE }

  // ----- One record

  /** A pax extension header. */
  function PaxRecord(r: Readers, policy: ArchivePolicy, s: Bytes, p: nat, size: nat, st: State): Option<State> {
    if !(policy.LegacyNodeTarNpm? || policy.CanonicalPaxNpm?) || st.pendingPax.Some? || st.pendingLongName.Some?
       || size > MAX_PAX_BYTES || !BodyFits(s, p, size)
    then None
    else
      match r.parsePax(s[p..p + size], policy, st.paxHeaders)
      case None => None
      case Some(pax) => Some(st.(pendingPax := Some(pax), paxHeaders := st.paxHeaders + 1))
  }

  /** A GNU long-name header. */
  function LongNameRecord(policy: ArchivePolicy, s: Bytes, h: Bytes, p: nat, size: nat, st: State): Option<State>
    requires |h| == BLOCK
  {
    if !policy.ExactNode? || st.pendingPax.Some? || st.pendingLongName.Some? || TarPath(h) != Some("././@LongLink")
       || size == 0 || size > MAX_TAR_PATH_BYTES + 1 || !BodyFits(s, p, size)
    then None
    else
      match LongName(s[p..p + size])
      case None => None
      case Some(name) => Some(st.(pendingLongName := Some(name), gnuLongNames := st.gnuLongNames + 1))
  }

  /** A member's name and numbers, once they have passed. */
  datatype Member = Member(raw: string, path: string, alias: bool, size: nat, mode: nat, times: nat)

  function ReadMember(policy: ArchivePolicy, h: Bytes, size: nat, st: State): (r: Option<Member>)
    requires |h| == BLOCK
    ensures r.Some? ==> r.value.size == size
  {
    var pax := if st.pendingPax.Some? then st.pendingPax.value else PaxHeader(None, None);
    match RawPath(policy, h, st.pendingLongName, pax)
    case None => None
    case Some((raw, times)) =>
      if (pax.size.Some? && pax.size.value != size) || raw in st.rawPaths then None
      else
        match PlacedPath(policy, raw, h[156])
        case None => None
        case Some((path, alias)) =>
          if !RootOk(policy, RootOf(path), st.root) || st.members + 1 > MAX_TAR_MEMBERS || size > MAX_TAR_MEMBER_BYTES
             || st.expanded + size > MAX_TAR_EXPANDED_BYTES
          then None
          else
            match ParseTarNumber(h[100..108])
            case None => None
            case Some(mode) => if mode > 0x1ff then None else Some(Member(raw, path, alias, size, mode, times))
  }

  /** What every member does to the state. */
  function Admit(st: State, m: Member): State {
    st.(rawPaths := st.rawPaths + {m.raw}, root := Some(RootOf(m.path)), pendingPax := None, pendingLongName := None,
        members := st.members + 1, starAlternateTimes := st.starAlternateTimes + m.times, expanded := st.expanded + m.size)
  }

  /** A regular file: an alias is kept for the end, a canonical path is entered once. */
  function AddFile(st: State, m: Member, file: Regular): Option<State> {
    if m.alias then Some(st.(regularCount := st.regularCount + 1, aliases := st.aliases + [(m.path, file.fact)]))
    else if m.path in st.regularFacts then None
    else if file.captured.Some? && file.captured.value.0 in st.captured then None
    else
      Some(st.(regularCount := st.regularCount + 1, regularFacts := st.regularFacts[m.path := file.fact],
               captured := if file.captured.Some? then st.captured[file.captured.value.0 := file.captured.value.1] else st.captured))
  }

  function LinkTarget(h: Bytes): Option<string>
    requires |h| == BLOCK
  {
    match TarString(h[157..257])
    case None => None
    case Some(target) => if target == "" || StartsWith(target, "/") || '\\' in target then None else Some(target)
  }

  function MemberRecord(r: Readers, policy: ArchivePolicy, s: Bytes, h: Bytes, p: nat, size: nat, st: State): Option<State>
    requires |h| == BLOCK
  {
    match ReadMember(policy, h, size, st)
    case None => None
    case Some(m) =>
      var admitted := Admit(st, m);
      if IsFileType(h[156]) then
        match RegularMember(r, s, p, size, m.mode, if policy.IsNpm() then CaptureLimit(m.path) else None)
        case None => None
        case Some(file) => AddFile(admitted, m, file)
      else if h[156] == TYPE_DIRECTORY && size == 0 && !m.alias then
        Some(admitted.(directoryCount := st.directoryCount + 1))
      else if h[156] == TYPE_LINK && policy.ExactNode? && size == 0 && !m.alias then
        match LinkTarget(h)
        case None => None
        case Some(target) => Some(admitted.(symlinkCount := st.symlinkCount + 1, links := st.links[m.path := target]))
      else None
  }

  /** One header that is not all zero, with its body. The state after it; the body's end follows from its size. */
  function Record(r: Readers, policy: ArchivePolicy, s: Bytes, p: nat, st: State): Option<State>
    requires p + BLOCK <= |s|
  {
    var h := s[p..p + BLOCK];
    if st.headers + 1 > MAX_TAR_HEADERS || !ValidTarChecksum(h) || DataSize(h).None? || !NumericHeaderOk(h, policy) then None
    else
      var (size, counted) := (DataSize(h).value, st.(headers := st.headers + 1));
      if h[156] == TYPE_PAX then PaxRecord(r, policy, s, p + BLOCK, size, counted)
      else if h[156] == TYPE_LONG_NAME then LongNameRecord(policy, s, h, p + BLOCK, size, counted)
      else MemberRecord(r, policy, s, h, p + BLOCK, size, counted)
  }

  function RecordEnd(s: Bytes, p: nat): (end: nat)
    requires p + BLOCK <= |s|
    ensures end >= p + BLOCK
  {
    BodyEnd(p + BLOCK, if DataSize(s[p..p + BLOCK]).Some? then DataSize(s[p..p + BLOCK]).value else 0)
  }

  lemma RecordFits(r: Readers, policy: ArchivePolicy, s: Bytes, p: nat, st: State)
    requires p + BLOCK <= |s| && Record(r, policy, s, p, st).Some?
    ensures RecordEnd(s, p) <= |s| && DataSize(s[p..p + BLOCK]).Some?
  {
    hide ReadMember, AddFile, LinkTarget, LongName, TarPath, ValidTarChecksum, NumericHeaderOk, ParseTarNumber, CaptureLimit;
  }

  // ----- The stream

  predicate IsZeroBlock(s: Bytes, p: nat)
    requires p + BLOCK <= |s|
  {
    AllZero(s[p..p + BLOCK])
  }

  /** The state at the first zero block, and where that block is. */
  function Records(r: Readers, policy: ArchivePolicy, s: Bytes, p: nat, st: State): (result: Option<(State, nat)>)
    ensures result.Some? ==> p <= result.value.1 <= |s|
    decreases |s| - p
  {
    if p + BLOCK > |s| then None
    else if IsZeroBlock(s, p) then Some((st, p))
    else
      match Record(r, policy, s, p, st)
      case None => None
      case Some(next) =>
        RecordFits(r, policy, s, p, st);
        Records(r, policy, s, RecordEnd(s, p), next)
  }

  /** How many whole blocks are left, if they are all zero. A last partial block is not looked at. */
  function ZeroBlocks(s: Bytes, p: nat): Option<nat>
    decreases |s| - p
  {
    if p + BLOCK > |s| then Some(0)
    else if !IsZeroBlock(s, p) then None
    else
      match ZeroBlocks(s, p + BLOCK)
      case None => None
      case Some(n) => Some(n + 1)
  }

  function NodeLinks(root: string): map<string, string> {
    map[root + "/bin/corepack" := "../lib/node_modules/corepack/dist/corepack.js",
        root + "/bin/npm" := "../lib/node_modules/npm/bin/npm-cli.js",
        root + "/bin/npx" := "../lib/node_modules/npm/bin/npx-cli.js"]
  }

  function FollowParts(parts: seq<string>, target: seq<string>): Option<seq<string>>
    decreases |target|
  {
    if target == [] then Some(parts)
    else if target[0] == "" || target[0] == "." then None
    else if target[0] == ".." then if parts == [] then None else FollowParts(parts[..|parts| - 1], target[1..])
    else if exists c <- target[0] :: IsControl(c) then None
    else FollowParts(parts + [target[0]], target[1..])
  }

  function ResolveLink(path: string, target: string): Option<string> {
    var parts := Split(path, "/");
    match FollowParts(parts[..|parts| - 1], Split(target, "/"))
    case None => None
    case Some(resolved) => Some(Join(resolved, "/"))
  }

  predicate LinksOk(st: State) {
    && st.root.Some? && st.links == NodeLinks(st.root.value)
    && forall path <- st.links ::
         var resolved := ResolveLink(path, st.links[path]);
         resolved.Some? && StartsWith(resolved.value, st.root.value + "/")
         && resolved.value in st.regularFacts && resolved.value !in st.links
  }

  /** No two aliases of one path, and every alias is a copy of a member with that path. */
  predicate AliasesOk(st: State) {
    forall i | 0 <= i < |st.aliases| ::
      && (forall k | 0 <= k < i :: st.aliases[k].0 != st.aliases[i].0)
      && st.aliases[i].0 in st.regularFacts && st.regularFacts[st.aliases[i].0] == st.aliases[i].1
  }

  predicate NpmOk(policy: ArchivePolicy, st: State) {
    && st.root.Some? && "package.json" in st.captured
    && (policy.LegacyStarNpm? ==> st.starAlternateTimes == 2)
    && (policy.RootNpm? ==> st.aliases == []) && AliasesOk(st)
  }

  function Finish(policy: ArchivePolicy, st: State): Option<ParsedTar> {
    if st.pendingPax.Some? || st.pendingLongName.Some? || st.members == 0 then None
    else if !(if policy.IsNpm() then NpmOk(policy, st) else LinksOk(st)) then None
    else
      Some(ParsedTar(st.captured, st.regularFacts, if policy.ExactNode? then st.root else None, st.members, st.headers,
                     st.gnuLongNames, st.paxHeaders, st.regularCount, st.directoryCount, st.symlinkCount))
  }

  /** The rest of the stream after some zero blocks. */
  function AfterZeros(policy: ArchivePolicy, s: Bytes, p: nat, zeros: nat, st: State): Option<ParsedTar> {
    match ZeroBlocks(s, p)
    case None => None
    case Some(n) => if zeros + n >= 2 then Finish(policy, st) else None
  }

  function ParseFrom(r: Readers, policy: ArchivePolicy, s: Bytes, p: nat, st: State): Option<ParsedTar> {
    match Records(r, policy, s, p, st)
    case None => None
    case Some((last, end)) => AfterZeros(policy, s, end, 0, last)
  }

  function Parsed(r: Readers, policy: ArchivePolicy, s: Bytes): Option<ParsedTar> { ParseFrom(r, policy, s, 0, Start()) }

  lemma ZeroStep(policy: ArchivePolicy, s: Bytes, p: nat, zeros: nat, st: State)
    requires p + BLOCK <= |s|
    ensures AfterZeros(policy, s, p, zeros, st)
         == if IsZeroBlock(s, p) then AfterZeros(policy, s, p + BLOCK, zeros + 1, st) else None
  {}

  lemma RecordStep(r: Readers, policy: ArchivePolicy, s: Bytes, p: nat, st: State)
    ensures p + BLOCK > |s| ==> ParseFrom(r, policy, s, p, st).None?
    ensures p + BLOCK <= |s| && IsZeroBlock(s, p) ==> ParseFrom(r, policy, s, p, st) == AfterZeros(policy, s, p + BLOCK, 1, st)
    ensures p + BLOCK <= |s| && !IsZeroBlock(s, p) ==>
      ParseFrom(r, policy, s, p, st) ==
        match Record(r, policy, s, p, st) case None => None case Some(next) => ParseFrom(r, policy, s, RecordEnd(s, p), next)
  {
    hide Record, Finish;
    if p + BLOCK <= |s| { ZeroStep(policy, s, p, 0, st); }
  }

  method CheckAliases(st: State) returns (ok: bool)
    ensures ok <==> AliasesOk(st)
  {
    var targets: set<string> := {};
    for i := 0 to |st.aliases|
      invariant targets == set k | 0 <= k < i :: st.aliases[k].0
      invariant forall j | 0 <= j < i ::
        && (forall k | 0 <= k < j :: st.aliases[k].0 != st.aliases[j].0)
        && st.aliases[j].0 in st.regularFacts && st.regularFacts[st.aliases[j].0] == st.aliases[j].1
    {
      var (target, fact) := st.aliases[i];
      if target in targets || target !in st.regularFacts || st.regularFacts[target] != fact { return false; }
      targets := targets + {target};
    }
    return true;
  }

  /** One record, read where the body of a regular member streams past. */
  method ReadRecord(r: Readers, policy: ArchivePolicy, s: Bytes, p: nat, st: State) returns (next: Option<State>)
    requires p + BLOCK <= |s|
    ensures next == Record(r, policy, s, p, st)
  {
    hide ParseTarNumber, ValidTarChecksum, NumericHeaderOk, ReadMember, AddFile, LinkTarget, PaxRecord, LongNameRecord, RegularMember,
         CaptureLimit;
    var h := s[p..p + BLOCK];
    var counted := st.(headers := st.headers + 1);
    if counted.headers > MAX_TAR_HEADERS || !ValidTarChecksum(h) { return None; }
    var size := DataSize(h);
    if size.None? || !NumericHeaderOk(h, policy) { return None; }
    if h[156] == TYPE_PAX {
      next := PaxRecord(r, policy, s, p + BLOCK, size.value, counted);
    } else if h[156] == TYPE_LONG_NAME {
      next := LongNameRecord(policy, s, h, p + BLOCK, size.value, counted);
    } else {
      var member := ReadMember(policy, h, size.value, counted);
      if member.None? { return None; }
      var m := member.value;
      var admitted := Admit(counted, m);
      if IsFileType(h[156]) {
        var capture := if policy.IsNpm() then CaptureLimit(m.path) else None;
        var file, _ := ReadRegularMember(r, s, p + BLOCK, size.value, m.mode, capture);
        if file.None? { return None; }
        next := AddFile(admitted, m, file.value);
      } else if h[156] == TYPE_DIRECTORY && size.value == 0 && !m.alias {
        next := Some(admitted.(directoryCount := admitted.directoryCount + 1));
      } else if h[156] == TYPE_LINK && policy.ExactNode? && size.value == 0 && !m.alias {
        var target := LinkTarget(h);
        if target.None? { return None; }
        next := Some(admitted.(symlinkCount := admitted.symlinkCount + 1, links := admitted.links[m.path := target.value]));
      } else {
        next := None;
      }
    }
  }

  /** The parser: one header block at a time until the stream ends. */
  method ParseTar(r: Readers, policy: ArchivePolicy, s: Bytes) returns (result: Option<ParsedTar>)
    ensures result == Parsed(r, policy, s)
  {
    hide Record, Finish, RecordEnd, AfterZeros, ParseFrom;
    var st := Start();
    var cursor, zeroBlocks, ended := 0, 0, false;
    while true
      invariant ended <==> zeroBlocks >= 2
      invariant zeroBlocks == 0 ==> Parsed(r, policy, s) == ParseFrom(r, policy, s, cursor, st)
      invariant zeroBlocks > 0 ==> Parsed(r, policy, s) == AfterZeros(policy, s, cursor, zeroBlocks, st)
      decreases |s| - cursor
    {
      RecordStep(r, policy, s, cursor, st);
      if cursor + BLOCK > |s| {
        if ended { break; }
        EndTooSoon(policy, s, cursor, zeroBlocks, st);
        return None;
      }
      ZeroStep(policy, s, cursor, zeroBlocks, st);
      if IsZeroBlock(s, cursor) {
        Saturates(policy, s, cursor + BLOCK, zeroBlocks, st);
        zeroBlocks := if zeroBlocks == 255 then 255 else zeroBlocks + 1;
        if zeroBlocks >= 2 { ended := true; }
        cursor := cursor + BLOCK;
        continue;
      }
      if ended || zeroBlocks != 0 { return None; }
      var next := ReadRecord(r, policy, s, cursor, st);
      if next.None? { return None; }
      st := next.value;
      cursor := RecordEnd(s, cursor);
    }
    EndReached(policy, s, cursor, zeroBlocks, st);
    if st.pendingPax.Some? || st.pendingLongName.Some? || st.members == 0 { FinishFails(policy, st); return None; }
    if policy.IsNpm() {
      if st.root.None? || "package.json" !in st.captured || (policy.LegacyStarNpm? && st.starAlternateTimes != 2)
         || (policy.RootNpm? && st.aliases != []) {
        FinishFails(policy, st);
        return None;
      }
      var aliased := CheckAliases(st);
      if !aliased { FinishFails(policy, st); return None; }
    } else if !LinksOk(st) {
      FinishFails(policy, st);
      return None;
    }
    result := Finish(policy, st);
  }

  lemma FinishFails(policy: ArchivePolicy, st: State)
    ensures (st.pendingPax.Some? || st.pendingLongName.Some? || st.members == 0
             || (policy.IsNpm() && !NpmOk(policy, st)) || (!policy.IsNpm() && !LinksOk(st))) ==> Finish(policy, st).None?
  {
    hide LinksOk;
  }

  lemma EndTooSoon(policy: ArchivePolicy, s: Bytes, p: nat, zeros: nat, st: State)
    requires p + BLOCK > |s| && zeros < 2
    ensures AfterZeros(policy, s, p, zeros, st).None?
  {}

  /** Past two, the count of zero blocks no longer matters. */
  lemma Saturates(policy: ArchivePolicy, s: Bytes, p: nat, zeros: nat, st: State)
    ensures zeros >= 2 ==> AfterZeros(policy, s, p, zeros, st) == AfterZeros(policy, s, p, zeros + 1, st)
  {
    hide Finish;
  }

  lemma EndReached(policy: ArchivePolicy, s: Bytes, p: nat, zeros: nat, st: State)
    requires p + BLOCK > |s| && zeros >= 2
    ensures AfterZeros(policy, s, p, zeros, st) == Finish(policy, st)
  {
    hide Finish;
  }
}
