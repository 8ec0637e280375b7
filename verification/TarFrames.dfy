/** What an accepted archive is made of: aligned records, extensions consumed by the very next member, two or more
    zero blocks, and regular members that agree wherever they name the same file. */
module TarFrames {
  import opened Wrappers
  import opened Text
  import opened JsonScan
  import opened TarHeader
  import opened TarArchive

  /** A header with its body and the padding to the next block boundary. The padding's bytes are not looked at. */
  datatype TarRecord = TarRecord(header: Bytes, body: Bytes, padding: Bytes) {
    function Text(): Bytes { header + body + padding }

    predicate Valid() {
      && |header| == BLOCK && !AllZero(header) && ValidTarChecksum(header)
      && DataSize(header) == Some(|body|) && |padding| == Padding(|body|)
    }

    predicate IsExtension()
      requires |header| == BLOCK
    {
      header[156] == TYPE_PAX || header[156] == TYPE_LONG_NAME
    }
  }

  /** A member's record, the extension record before it, and what the parser made of them. */
  datatype Frame = Frame(extension: Option<TarRecord>, record: TarRecord, member: Member) {
    function Text(): Bytes { (if extension.Some? then extension.value.Text() else []) + record.Text() }

    predicate IsFile()
      requires |record.header| == BLOCK
    {
      IsFileType(record.header[156])
    }
  }

  function FrameText(frames: seq<Frame>): Bytes {
    if frames == [] then [] else frames[0].Text() + FrameText(frames[1..])
  }

  function FactOf(r: Readers, f: Frame): RegularMemberFact {
    RegularMemberFact(f.member.mode, |f.record.body|, r.sha(f.record.body))
  }

  /** The name comes from the extension, if there is one. */
  ghost predicate Named(r: Readers, policy: ArchivePolicy, f: Frame)
    requires |f.record.header| == BLOCK && (f.extension.Some? ==> |f.extension.value.header| == BLOCK)
  {
    var name := (f.member.raw, f.member.times);
    match f.extension
    case None => RawPath(policy, f.record.header, None, PaxHeader(None, None)) == Some(name)
    case Some(x) =>
      if x.header[156] == TYPE_PAX then
        exists index: nat | r.parsePax(x.body, policy, index).Some? ::
          RawPath(policy, f.record.header, None, r.parsePax(x.body, policy, index).value) == Some(name)
      else
        LongName(x.body).Some? && RawPath(policy, f.record.header, LongName(x.body), PaxHeader(None, None)) == Some(name)
  }

  ghost predicate FrameOk(r: Readers, policy: ArchivePolicy, f: Frame) {
    && f.record.Valid() && !f.record.IsExtension()
    && (f.extension.Some? ==> f.extension.value.Valid() && f.extension.value.IsExtension())
    && Named(r, policy, f)
    && PlacedPath(policy, f.member.raw, f.record.header[156]) == Some((f.member.path, f.member.alias))
    && f.member.size == |f.record.body|
    && ParseTarNumber(f.record.header[100..108]) == Some(f.member.mode) && f.member.mode <= 0x1ff
    && (f.member.alias ==> f.IsFile())
  }

  // ----- One record

  function RecordAt(s: Bytes, p: nat): (x: TarRecord)
    requires p + BLOCK <= |s| && DataSize(s[p..p + BLOCK]).Some? && RecordEnd(s, p) <= |s|
    ensures |x.header| == BLOCK
  {
    var size := DataSize(s[p..p + BLOCK]).value;
    TarRecord(s[p..p + BLOCK], s[p + BLOCK..p + BLOCK + size], s[p + BLOCK + size..RecordEnd(s, p)])
  }

  lemma RecordIsValid(r: Readers, policy: ArchivePolicy, s: Bytes, p: nat, st: State)
    requires p + BLOCK <= |s| && !IsZeroBlock(s, p) && Record(r, policy, s, p, st).Some?
    ensures RecordEnd(s, p) <= |s| && DataSize(s[p..p + BLOCK]).Some?
    ensures RecordAt(s, p).Valid() && RecordAt(s, p).Text() == s[p..RecordEnd(s, p)]
  {
    RecordFits(r, policy, s, p, st);
    hide PaxRecord, LongNameRecord, MemberRecord, NumericHeaderOk, ParseTarNumber;
    var size := DataSize(s[p..p + BLOCK]).value;
    Pieces(s, p, p + BLOCK, p + BLOCK + size, RecordEnd(s, p));
  }

  lemma Pieces(s: Bytes, a: nat, b: nat, c: nat, d: nat)
    requires a <= b <= c <= d <= |s|
    ensures s[a..b] + s[b..c] + s[c..d] == s[a..d]
  {}

  predicate Idle(st: State) { st.pendingPax.None? && st.pendingLongName.None? }

  /** What an extension leaves for the next record. */
  ghost predicate Pending(r: Readers, policy: ArchivePolicy, x: TarRecord, st: State)
    requires |x.header| == BLOCK
  {
    if x.header[156] == TYPE_PAX then
      st.pendingLongName.None? && exists index: nat :: st.pendingPax == r.parsePax(x.body, policy, index) && st.pendingPax.Some?
    else st.pendingPax.None? && st.pendingLongName == LongName(x.body) && st.pendingLongName.Some?
  }

  lemma ExtensionLeavesPending(r: Readers, policy: ArchivePolicy, s: Bytes, p: nat, st: State)
    requires p + BLOCK <= |s| && !IsZeroBlock(s, p) && Idle(st) && Record(r, policy, s, p, st).Some?
    requires s[p + 156] == TYPE_PAX || s[p + 156] == TYPE_LONG_NAME
    ensures RecordEnd(s, p) <= |s| && DataSize(s[p..p + BLOCK]).Some? && RecordAt(s, p).IsExtension()
    ensures var next := Record(r, policy, s, p, st).value;
      && Pending(r, policy, RecordAt(s, p), next)
      && next == st.(pendingPax := next.pendingPax, pendingLongName := next.pendingLongName, headers := st.headers + 1,
                     paxHeaders := next.paxHeaders, gnuLongNames := next.gnuLongNames)
  {
    hide MemberRecord, NumericHeaderOk, ParseTarNumber, ValidTarChecksum, LongName, TarPath;
    RecordFits(r, policy, s, p, st);
    var h := s[p..p + BLOCK];
    assert h[156] == s[p + 156];
  }

  lemma PendingNeedsMember(r: Readers, policy: ArchivePolicy, s: Bytes, p: nat, st: State)
    requires p + BLOCK <= |s| && !Idle(st) && Record(r, policy, s, p, st).Some?
    ensures s[p + 156] != TYPE_PAX && s[p + 156] != TYPE_LONG_NAME
  {
    hide MemberRecord, NumericHeaderOk, ParseTarNumber, ValidTarChecksum, LongName, TarPath;
    assert s[p..p + BLOCK][156] == s[p + 156];
  }

  /** What a member's record does. */
  ghost predicate Logged(r: Readers, st: State, next: State, f: Frame)
    requires |f.record.header| == BLOCK
  {
    var entered := f.IsFile() && !f.member.alias;
    && Idle(next) && next.members == st.members + 1
    && f.member.raw !in st.rawPaths && next.rawPaths == st.rawPaths + {f.member.raw}
    && next.aliases == st.aliases + (if f.member.alias then [(f.member.path, FactOf(r, f))] else [])
    && (entered ==> f.member.path !in st.regularFacts)
    && next.regularFacts == (if entered then st.regularFacts[f.member.path := FactOf(r, f)] else st.regularFacts)
    && next.root == Some(RootOf(f.member.path)) && (st.root.Some? ==> next.root == st.root)
  }

  lemma RecordIsMember(r: Readers, policy: ArchivePolicy, s: Bytes, p: nat, st: State)
    requires p + BLOCK <= |s| && Record(r, policy, s, p, st).Some?
    requires s[p + 156] != TYPE_PAX && s[p + 156] != TYPE_LONG_NAME
    ensures DataSize(s[p..p + BLOCK]).Some?
    ensures Record(r, policy, s, p, st)
         == MemberRecord(r, policy, s, s[p..p + BLOCK], p + BLOCK, DataSize(s[p..p + BLOCK]).value, st.(headers := st.headers + 1))
  {
    hide NumericHeaderOk, ParseTarNumber, ValidTarChecksum, MemberRecord;
    assert s[p..p + BLOCK][156] == s[p + 156];
  }

  /** The same for the fields of one member record. */
  lemma MemberEffect(r: Readers, policy: ArchivePolicy, s: Bytes, h: Bytes, p: nat, size: nat, st: State) returns (m: Member)
    requires |h| == BLOCK && MemberRecord(r, policy, s, h, p, size, st).Some? && BodyFits(s, p, size)
    ensures ReadMember(policy, h, size, st) == Some(m) && m.size == size && (m.alias ==> IsFileType(h[156]))
    ensures var (next, entered, fact) :=
        (MemberRecord(r, policy, s, h, p, size, st).value, IsFileType(h[156]) && !m.alias, RegularMemberFact(m.mode, size, r.sha(s[p..p + size])));
      && next.pendingPax.None? && next.pendingLongName.None? && next.members == st.members + 1
      && next.rawPaths == st.rawPaths + {m.raw} && next.root == Some(RootOf(m.path))
      && next.aliases == st.aliases + (if m.alias then [(m.path, fact)] else [])
      && (entered ==> m.path !in st.regularFacts)
      && next.regularFacts == (if entered then st.regularFacts[m.path := fact] else st.regularFacts)
  {
    hide ReadMember, LinkTarget, CaptureLimit, RootOf;
    m := ReadMember(policy, h, size, st).value;
    if !m.alias { assert st.aliases + [] == st.aliases; }
  }

  lemma MemberIsLogged(r: Readers, policy: ArchivePolicy, s: Bytes, p: nat, st: State) returns (m: Member)
    requires p + BLOCK <= |s| && !IsZeroBlock(s, p) && Record(r, policy, s, p, st).Some?
    requires s[p + 156] != TYPE_PAX && s[p + 156] != TYPE_LONG_NAME
    ensures RecordEnd(s, p) <= |s| && DataSize(s[p..p + BLOCK]).Some?
    ensures var f := Frame(None, RecordAt(s, p), m);
      && !f.record.IsExtension() && Logged(r, st, Record(r, policy, s, p, st).value, f)
      && m.size == |f.record.body| && (m.alias ==> f.IsFile())
      && ReadMember(policy, f.record.header, m.size, st.(headers := st.headers + 1)) == Some(m)
  {
    hide Record, MemberRecord, ReadMember, DataSize, RootOf;
    RecordFits(r, policy, s, p, st);
    RecordIsMember(r, policy, s, p, st);
    var h := s[p..p + BLOCK];
    var size := DataSize(h).value;
    assert h[156] == s[p + 156];
    m := MemberEffect(r, policy, s, h, p + BLOCK, size, st.(headers := st.headers + 1));
    ReadIsChecked(policy, h, size, st.(headers := st.headers + 1));
  }

  lemma ReadIsChecked(policy: ArchivePolicy, h: Bytes, size: nat, st: State)
    requires |h| == BLOCK && ReadMember(policy, h, size, st).Some?
    ensures var m := ReadMember(policy, h, size, st).value;
      && m.raw !in st.rawPaths && (st.root.Some? ==> RootOf(m.path) == st.root.value)
      && PlacedPath(policy, m.raw, h[156]) == Some((m.path, m.alias))
      && ParseTarNumber(h[100..108]) == Some(m.mode) && m.mode <= 0x1ff
      && RawPath(policy, h, st.pendingLongName, if st.pendingPax.Some? then st.pendingPax.value else PaxHeader(None, None))
         == Some((m.raw, m.times))
  {
    hide RawPath, PlacedPath, ParseTarNumber;
  }

  // ----- All records

  function AliasLog(r: Readers, frames: seq<Frame>): seq<(string, RegularMemberFact)> {
    if frames == [] then []
    else (if frames[0].member.alias then [(frames[0].member.path, FactOf(r, frames[0]))] else []) + AliasLog(r, frames[1..])
  }

  ghost predicate Enters(f: Frame)
  {
    |f.record.header| == BLOCK && f.IsFile() && !f.member.alias
  }

  /** What all the members' records did to the facts ... */
  ghost predicate FactsLogged(
    r: Readers, before: map<string, RegularMemberFact>, after: map<string, RegularMemberFact>, frames: seq<Frame>)
  {
    && (forall f <- frames | Enters(f) :: f.member.path in after && after[f.member.path] == FactOf(r, f))
    && (forall f <- frames | Enters(f) :: f.member.path !in before)
    && (forall path <- before :: path in after && after[path] == before[path])
    && (forall path <- after :: path in before || exists f <- frames :: Enters(f) && f.member.path == path)
  }

  /** ... and to the names and the root. */
  ghost predicate NamesLogged(before: set<string>, frames: seq<Frame>, first: Option<string>, root: Option<string>) {
    && (forall f <- frames :: f.member.raw !in before)
    && (forall i, j | 0 <= i < j < |frames| :: frames[i].member.raw != frames[j].member.raw)
    && (forall f <- frames :: Some(RootOf(f.member.path)) == root)
    && (first.Some? || frames == [] ==> root == first)
  }

  ghost predicate AllLogged(r: Readers, st: State, last: State, frames: seq<Frame>) {
    && last.members == st.members + |frames|
    && last.aliases == st.aliases + AliasLog(r, frames)
    && FactsLogged(r, st.regularFacts, last.regularFacts, frames)
    && NamesLogged(st.rawPaths, frames, st.root, last.root)
  }

  lemma NothingLogged(r: Readers, st: State)
    ensures AllLogged(r, st, st, [])
  {}

  lemma InFirst(f: Frame, frames: seq<Frame>, g: Frame)
    ensures g in [f] + frames <==> g == f || g in frames
  {}

  lemma FactsFirst(
    r: Readers, before: map<string, RegularMemberFact>, middle: map<string, RegularMemberFact>, after: map<string, RegularMemberFact>,
    f: Frame, frames: seq<Frame>)
    requires Enters(f) ==> f.member.path !in before
    requires middle == (if Enters(f) then before[f.member.path := FactOf(r, f)] else before)
    requires FactsLogged(r, middle, after, frames)
    ensures FactsLogged(r, before, after, [f] + frames)
  {
    hide FactOf, Enters;
    var all := [f] + frames;
    forall g ensures g in all <==> g == f || g in frames { InFirst(f, frames, g); }
    forall path <- after ensures path in before || exists g <- all :: Enters(g) && g.member.path == path {
      if path in middle && path !in before { assert f in all; }
      if path !in middle {
        var g :| g in frames && Enters(g) && g.member.path == path;
        assert g in all;
      }
    }
  }

  lemma NamesFirst(
    before: set<string>, f: Frame, frames: seq<Frame>, first: Option<string>, root: Option<string>)
    requires f.member.raw !in before && (first.Some? ==> first == Some(RootOf(f.member.path)))
    requires NamesLogged(before + {f.member.raw}, frames, Some(RootOf(f.member.path)), root)
    ensures NamesLogged(before, [f] + frames, first, root)
  {
    hide RootOf;
    var all := [f] + frames;
    forall g ensures g in all <==> g == f || g in frames { InFirst(f, frames, g); }
    forall i, j | 0 <= i < j < |all| ensures all[i].member.raw != all[j].member.raw {
      assert all[j] == frames[j - 1] && frames[j - 1] in frames;
      if i > 0 { assert all[i] == frames[i - 1]; }
    }
  }

  lemma LogFirst(r: Readers, st: State, next: State, last: State, f: Frame, frames: seq<Frame>)
    requires |f.record.header| == BLOCK && Logged(r, st, next, f) && AllLogged(r, next, last, frames)
    ensures AllLogged(r, st, last, [f] + frames)
  {
    hide RootOf, FactsLogged, NamesLogged, AliasLog, FactOf;
    FactsFirst(r, st.regularFacts, next.regularFacts, last.regularFacts, f, frames);
    NamesFirst(st.rawPaths, f, frames, st.root, last.root);
    AliasLogFirst(r, f, frames);
    LogAliases(st.aliases, if f.member.alias then [(f.member.path, FactOf(r, f))] else [], AliasLog(r, frames));
  }

  lemma AliasLogFirst(r: Readers, f: Frame, frames: seq<Frame>)
    ensures AliasLog(r, [f] + frames) == (if f.member.alias then [(f.member.path, FactOf(r, f))] else []) + AliasLog(r, frames)
  {
    assert ([f] + frames)[1..] == frames;
  }

  lemma LogAliases<T>(a: seq<T>, b: seq<T>, c: seq<T>)
    ensures a + b + c == a + (b + c)
  {}

  /** The records go on where a record ends. */
  lemma RecordsGoOn(r: Readers, policy: ArchivePolicy, s: Bytes, p: nat, st: State, last: State, end: nat)
    requires Records(r, policy, s, p, st) == Some((last, end)) && p + BLOCK <= |s| && !IsZeroBlock(s, p)
    ensures Record(r, policy, s, p, st).Some? && p < RecordEnd(s, p) <= end <= |s|
    ensures Records(r, policy, s, RecordEnd(s, p), Record(r, policy, s, p, st).value) == Some((last, end))
  {
    hide Record, IsZeroBlock, DataSize;
    if Record(r, policy, s, p, st).Some? { RecordFits(r, policy, s, p, st); }
  }

  /** A member without an extension. */
  lemma PlainFrame(r: Readers, policy: ArchivePolicy, s: Bytes, p: nat, st: State) returns (f: Frame)
    requires p + BLOCK <= |s| && !IsZeroBlock(s, p) && Record(r, policy, s, p, st).Some? && Idle(st)
    requires s[p + 156] != TYPE_PAX && s[p + 156] != TYPE_LONG_NAME
    ensures RecordEnd(s, p) <= |s| && s[p..RecordEnd(s, p)] == f.Text()
    ensures FrameOk(r, policy, f) && Logged(r, st, Record(r, policy, s, p, st).value, f)
  {
    hide Record, ReadMember, TarRecord.Text, TarRecord.Valid, RecordEnd, DataSize, RecordAt, TarRecord.IsExtension, RawPath, LongName,
         PlacedPath, Named, Logged, ParseTarNumber;
    RecordIsValid(r, policy, s, p, st);
    var m := MemberIsLogged(r, policy, s, p, st);
    f := Frame(None, RecordAt(s, p), m);
    ReadIsChecked(policy, f.record.header, m.size, st.(headers := st.headers + 1));
    NamedByHeader(r, policy, f);
    assert f.Text() == [] + f.record.Text() == f.record.Text();
  }

  /** An extension and the member that consumes it. */
  lemma ExtendedFrame(r: Readers, policy: ArchivePolicy, s: Bytes, p: nat, st: State, mid: nat, first: State) returns (f: Frame)
    requires p + BLOCK <= |s| && !IsZeroBlock(s, p) && Record(r, policy, s, p, st) == Some(first) && Idle(st)
    requires s[p + 156] == TYPE_PAX || s[p + 156] == TYPE_LONG_NAME
    requires mid == RecordEnd(s, p) && mid + BLOCK <= |s| && !IsZeroBlock(s, mid) && Record(r, policy, s, mid, first).Some?
    ensures RecordEnd(s, mid) <= |s| && s[p..RecordEnd(s, mid)] == f.Text()
    ensures FrameOk(r, policy, f) && Logged(r, st, Record(r, policy, s, mid, first).value, f)
  {
    hide Record, ReadMember, TarRecord.Text, TarRecord.Valid, RecordEnd, DataSize, RecordAt, TarRecord.IsExtension, RawPath, LongName,
         PlacedPath, Named, Logged, ParseTarNumber, IsZeroBlock;
    RecordIsValid(r, policy, s, p, st);
    ExtensionLeavesPending(r, policy, s, p, st);
    var x := RecordAt(s, p);
    RecordIsValid(r, policy, s, mid, first);
    PendingIsBusy(r, policy, x, first);
    PendingNeedsMember(r, policy, s, mid, first);
    var m := MemberIsLogged(r, policy, s, mid, first);
    f := Frame(Some(x), RecordAt(s, mid), m);
    PendingCounted(r, policy, x, first);
    NamedByExtension(r, policy, x, f, first.(headers := first.headers + 1));
    LoggedPlain(r, first, Record(r, policy, s, mid, first).value, f);
    LoggedThrough(r, st, first, Record(r, policy, s, mid, first).value, f);
    assert s[p..RecordEnd(s, mid)] == s[p..mid] + s[mid..RecordEnd(s, mid)];
  }

  lemma LoggedPlain(r: Readers, st: State, next: State, f: Frame)
    requires |f.record.header| == BLOCK && Logged(r, st, next, Frame(None, f.record, f.member))
    ensures Logged(r, st, next, f.(extension := None))
  {}

  lemma PendingIsBusy(r: Readers, policy: ArchivePolicy, x: TarRecord, st: State)
    requires |x.header| == BLOCK && Pending(r, policy, x, st)
    ensures !Idle(st)
  {}

  lemma PendingCounted(r: Readers, policy: ArchivePolicy, x: TarRecord, st: State)
    requires |x.header| == BLOCK && Pending(r, policy, x, st)
    ensures Pending(r, policy, x, st.(headers := st.headers + 1))
  {
    hide LongName;
  }

  /** One member with the extension before it, if any. */
  lemma FrameIsRead(r: Readers, policy: ArchivePolicy, s: Bytes, p: nat, st: State, last: State, end: nat)
    returns (f: Frame, next: State, q: nat)
    requires Records(r, policy, s, p, st) == Some((last, end)) && Idle(st) && Idle(last)
    requires p + BLOCK <= |s| && !IsZeroBlock(s, p)
    ensures p < q <= end <= |s| && s[p..q] == f.Text()
    ensures FrameOk(r, policy, f) && Logged(r, st, next, f) && Idle(next) && Records(r, policy, s, q, next) == Some((last, end))
  {
    hide Record, FrameOk, RecordEnd, Records, IsZeroBlock, Frame.Text, Pending;
    RecordsGoOn(r, policy, s, p, st, last, end);
    var first, mid := Record(r, policy, s, p, st).value, RecordEnd(s, p);
    if s[p + 156] == TYPE_PAX || s[p + 156] == TYPE_LONG_NAME {
      ExtensionLeavesPending(r, policy, s, p, st);
      PendingIsBusy(r, policy, RecordAt(s, p), first);
      PendingGoesOn(r, policy, s, mid, first, last, end);
      RecordsGoOn(r, policy, s, mid, first, last, end);
      f := ExtendedFrame(r, policy, s, p, st, mid, first);
      next, q := Record(r, policy, s, mid, first).value, RecordEnd(s, mid);
    } else {
      f := PlainFrame(r, policy, s, p, st);
      next, q := first, mid;
    }
  }

  lemma PendingGoesOn(r: Readers, policy: ArchivePolicy, s: Bytes, p: nat, st: State, last: State, end: nat)
    requires Records(r, policy, s, p, st) == Some((last, end)) && !Idle(st) && Idle(last)
    ensures p + BLOCK <= |s| && !IsZeroBlock(s, p) && Record(r, policy, s, p, st).Some?
  {
    hide Record, IsZeroBlock;
  }

  lemma NamedByHeader(r: Readers, policy: ArchivePolicy, f: Frame)
    requires f.extension.None? && |f.record.header| == BLOCK
    requires RawPath(policy, f.record.header, None, PaxHeader(None, None)) == Some((f.member.raw, f.member.times))
    ensures Named(r, policy, f)
  {
    hide RawPath;
  }

  lemma NamedByExtension(r: Readers, policy: ArchivePolicy, x: TarRecord, f: Frame, st: State)
    requires f.extension == Some(x) && |x.header| == BLOCK && |f.record.header| == BLOCK
    requires Pending(r, policy, x, st) && ReadMember(policy, f.record.header, f.member.size, st) == Some(f.member)
    ensures Named(r, policy, f)
    ensures PlacedPath(policy, f.member.raw, f.record.header[156]) == Some((f.member.path, f.member.alias))
    ensures ParseTarNumber(f.record.header[100..108]) == Some(f.member.mode) && f.member.mode <= 0x1ff
  {
    hide RawPath, PlacedPath, ParseTarNumber, LongName, ReadMember;
    ReadIsChecked(policy, f.record.header, f.member.size, st);
    if x.header[156] == TYPE_PAX {
      var index: nat :| st.pendingPax == r.parsePax(x.body, policy, index) && st.pendingPax.Some?;
      assert r.parsePax(x.body, policy, index).Some?;
    }
  }

  lemma LoggedThrough(r: Readers, st: State, first: State, next: State, f: Frame)
    requires |f.record.header| == BLOCK && Logged(r, first, next, f.(extension := None))
    requires first == st.(pendingPax := first.pendingPax, pendingLongName := first.pendingLongName, headers := first.headers,
                          paxHeaders := first.paxHeaders, gnuLongNames := first.gnuLongNames)
    ensures Logged(r, st, next, f)
  {
    hide RootOf;
  }

  /** Up to the first zero block, an accepted stream is frame after frame. */
  lemma {:induction false} FramesAreRead(r: Readers, policy: ArchivePolicy, s: Bytes, p: nat, st: State, last: State, end: nat)
    returns (frames: seq<Frame>)
    requires Records(r, policy, s, p, st) == Some((last, end)) && Idle(st) && Idle(last)
    ensures p <= end <= |s| && s[p..end] == FrameText(frames) && AllLogged(r, st, last, frames)
    ensures forall f <- frames :: FrameOk(r, policy, f)
    decreases |s| - p
  {
    hide Record, AllLogged, Logged, FrameOk, Records, IsZeroBlock, FrameText, Frame.Text;
    BlockIsThere(r, policy, s, p, st);
    if IsZeroBlock(s, p) {
      frames := [];
      StopsAtZeros(r, policy, s, p, st, last, end);
      NothingLogged(r, st);
    } else {
      var f, next, q := FrameIsRead(r, policy, s, p, st, last, end);
      var rest := FramesAreRead(r, policy, s, q, next, last, end);
      frames := [f] + rest;
      FrameHasHeader(r, policy, f);
      LogFirst(r, st, next, last, f, rest);
      TextFirst(f, rest);
      TwoParts(s, p, q, end);
    }
  }

  lemma BlockIsThere(r: Readers, policy: ArchivePolicy, s: Bytes, p: nat, st: State)
    requires Records(r, policy, s, p, st).Some?
    ensures p + BLOCK <= |s|
  {}

  lemma StopsAtZeros(r: Readers, policy: ArchivePolicy, s: Bytes, p: nat, st: State, last: State, end: nat)
    requires p + BLOCK <= |s| && IsZeroBlock(s, p) && Records(r, policy, s, p, st) == Some((last, end))
    ensures p == end <= |s| && st == last && s[p..end] == FrameText([])
  {
    hide Record;
  }

  lemma TextFirst(f: Frame, frames: seq<Frame>)
    ensures FrameText([f] + frames) == f.Text() + FrameText(frames)
  {
    assert ([f] + frames)[1..] == frames;
  }

  lemma TwoParts(s: Bytes, a: nat, b: nat, c: nat)
    requires a <= b <= c <= |s|
    ensures s[a..c] == s[a..b] + s[b..c]
  {}

  lemma FrameHasHeader(r: Readers, policy: ArchivePolicy, f: Frame)
    requires FrameOk(r, policy, f)
    ensures |f.record.header| == BLOCK
  {}

  // ----- The accepted archive

  function Zeros(n: nat): (b: Bytes)
    ensures |b| == n && AllZero(b)
  {
    seq(n, i => 0)
  }

  lemma {:induction false} ZeroTail(s: Bytes, p: nat, n: nat)
    requires p <= |s| && ZeroBlocks(s, p) == Some(n)
    ensures p + BLOCK * n <= |s| < p + BLOCK * n + BLOCK
    ensures s[p..p + BLOCK * n] == Zeros(BLOCK * n)
    decreases n
  {
    if n > 0 {
      ZeroTail(s, p + BLOCK, n - 1);
      assert s[p..p + BLOCK * n] == s[p..p + BLOCK] + s[p + BLOCK..p + BLOCK * n];
    }
  }

  lemma {:induction false} FramesAreAligned(r: Readers, policy: ArchivePolicy, frames: seq<Frame>)
    requires forall f <- frames :: FrameOk(r, policy, f)
    ensures |FrameText(frames)| % BLOCK == 0
  {
    hide FrameOk, Frame.Text;
    if frames != [] {
      assert frames[0] in frames && forall g <- frames[1..] :: g in frames;
      FramesAreAligned(r, policy, frames[1..]);
      FrameIsAligned(r, policy, frames[0]);
      AlignedSum(|frames[0].Text()|, |FrameText(frames[1..])|);
    }
  }

  lemma AlignedSum(a: nat, b: nat)
    requires a % BLOCK == 0 && b % BLOCK == 0
    ensures (a + b) % BLOCK == 0
  {}

  lemma FrameIsAligned(r: Readers, policy: ArchivePolicy, f: Frame)
    requires FrameOk(r, policy, f)
    ensures |f.Text()| % BLOCK == 0
  {
    hide Named, TarRecord.Valid, TarRecord.Text, PlacedPath, ParseTarNumber;
    RecordIsAligned(f.record);
    if f.extension.Some? { RecordIsAligned(f.extension.value); }
  }

  lemma RecordIsAligned(x: TarRecord)
    requires x.Valid()
    ensures |x.Text()| % BLOCK == 0
  {
    hide ParseTarNumber, ValidTarChecksum;
  }

  /** Regular members agree wherever they name the same file: the facts of the archive are the facts of all of them,
      no path has two dotted aliases, and every alias stands for a member spelled without a dot, wherever it is. */
  ghost predicate RegularsAgree(r: Readers, frames: seq<Frame>, facts: map<string, RegularMemberFact>) {
    && (forall f <- frames | Regular(f) :: f.member.path in facts && facts[f.member.path] == FactOf(r, f))
    && (forall i, j | 0 <= i < j < |frames| && frames[i].member.alias && frames[j].member.alias ::
          frames[i].member.path != frames[j].member.path)
    && (forall f <- frames | f.member.alias :: exists g <- frames :: Enters(g) && g.member.path == f.member.path)
    && (forall path <- facts :: exists f <- frames :: Enters(f) && f.member.path == path)
  }

  ghost predicate Regular(f: Frame) { |f.record.header| == BLOCK && f.IsFile() }

  lemma {:induction false} AliasIsLogged(r: Readers, frames: seq<Frame>, i: nat)
    requires i < |frames| && frames[i].member.alias
    ensures var at := |AliasLog(r, frames[..i])|;
      at < |AliasLog(r, frames)| && AliasLog(r, frames)[at] == (frames[i].member.path, FactOf(r, frames[i]))
  {
    if i > 0 {
      AliasIsLogged(r, frames[1..], i - 1);
      assert frames[..i][1..] == frames[1..][..i - 1];
    }
  }

  lemma {:induction false} AliasLogGrows(r: Readers, frames: seq<Frame>, i: nat, j: nat)
    requires i < j <= |frames| && frames[i].member.alias
    ensures |AliasLog(r, frames[..i])| < |AliasLog(r, frames[..j])|
  {
    if i > 0 {
      AliasLogGrows(r, frames[1..], i - 1, j - 1);
      assert frames[..i][1..] == frames[1..][..i - 1] && frames[..j][1..] == frames[1..][..j - 1];
    }
  }

  lemma LoggedRegularsAgree(r: Readers, last: State, frames: seq<Frame>)
    requires AllLogged(r, Start(), last, frames) && AliasesOk(last)
    requires forall f <- frames | f.member.alias :: Regular(f)
    ensures RegularsAgree(r, frames, last.regularFacts)
  {
    hide AliasLog, RootOf;
    assert last.aliases == AliasLog(r, frames);
    forall i | 0 <= i < |frames| && frames[i].member.alias
      ensures frames[i].member.path in last.regularFacts && last.regularFacts[frames[i].member.path] == FactOf(r, frames[i])
    {
      AliasIsLogged(r, frames, i);
    }
    forall i, j | 0 <= i < j < |frames| && frames[i].member.alias && frames[j].member.alias
      ensures frames[i].member.path != frames[j].member.path
    {
      AliasIsLogged(r, frames, i);
      AliasIsLogged(r, frames, j);
      AliasLogGrows(r, frames, i, j);
    }
  }

  /** An accepted stream is frames, then two or more zero blocks, then less than a block of anything. */
  lemma AcceptedIsFramed(r: Readers, policy: ArchivePolicy, s: Bytes) returns (frames: seq<Frame>, zeros: nat, tail: Bytes)
    requires Parsed(r, policy, s).Some?
    ensures s == FrameText(frames) + Zeros(BLOCK * zeros) + tail
    ensures zeros >= 2 && |tail| < BLOCK && |FrameText(frames)| % BLOCK == 0
    ensures forall f <- frames :: FrameOk(r, policy, f)
    ensures frames != [] && |frames| == Parsed(r, policy, s).value.memberCount
    ensures forall i, j | 0 <= i < j < |frames| :: frames[i].member.raw != frames[j].member.raw
    ensures forall f, g | f in frames && g in frames :: RootOf(f.member.path) == RootOf(g.member.path)
    ensures policy.IsNpm() ==> RegularsAgree(r, frames, Parsed(r, policy, s).value.regularFacts)
  {
    hide Records, FrameOk, RootOf, AliasLog, LinksOk, ZeroBlocks, RegularsAgree, Enters;
    var (last, end) := Records(r, policy, s, 0, Start()).value;
    zeros := ZeroBlocks(s, end).value;
    frames := FramesAreRead(r, policy, s, 0, Start(), last, end);
    FramesAreAligned(r, policy, frames);
    ZeroTail(s, end, zeros);
    tail := s[end + BLOCK * zeros..];
    ThreeParts(s, end, end + BLOCK * zeros);
    if policy.IsNpm() {
      AliasesAreRegular(r, policy, frames);
      LoggedRegularsAgree(r, last, frames);
    }
  }

  lemma AliasesAreRegular(r: Readers, policy: ArchivePolicy, frames: seq<Frame>)
    requires forall f <- frames :: FrameOk(r, policy, f)
    ensures forall f <- frames | f.member.alias :: Regular(f)
  {
    hide Named, TarRecord.Valid, PlacedPath, ParseTarNumber;
    forall f <- frames | f.member.alias ensures Regular(f) {
      FrameHasHeader(r, policy, f);
    }
  }

  lemma ThreeParts(s: Bytes, a: nat, b: nat)
    requires a <= b <= |s|
    ensures s == s[0..a] + s[a..b] + s[b..]
  {}

  /** The names stand for one file: npm's normalisation accepts both and takes them to one path. */
  predicate SameFile(a: string, b: string) {
    NormalizeNpmPath(a).Some? && NormalizeNpmPath(b).Some? && NormalizeNpmPath(a).value.0 == NormalizeNpmPath(b).value.0
  }

  lemma RegularIsPlaced(r: Readers, policy: ArchivePolicy, f: Frame)
    requires FrameOk(r, policy, f) && Regular(f) && policy.IsNpm()
    ensures NormalizeNpmPath(f.member.raw) == Some((f.member.path, f.member.alias))
  {
    hide Named, TarRecord.Valid, NormalizeNpmPath, ParseTarNumber;
  }

  /** In an accepted npm archive, regular members whose names stand for one file have one mode, size and digest,
      whatever the names, whatever the order and whichever of them an extension spelled. */
  lemma SameCanonicalPathSameFile(r: Readers, policy: ArchivePolicy, s: Bytes)
    returns (frames: seq<Frame>, zeros: nat, tail: Bytes)
    requires policy.IsNpm() && Parsed(r, policy, s).Some?
    ensures s == FrameText(frames) + Zeros(BLOCK * zeros) + tail && |tail| < BLOCK
    ensures forall f <- frames :: FrameOk(r, policy, f)
    ensures forall f, g | f in frames && g in frames && Regular(f) && Regular(g) && SameFile(f.member.raw, g.member.raw) ::
      FactOf(r, f) == FactOf(r, g)
  {
    hide Parsed, FrameOk, FactOf, NormalizeNpmPath, RootOf;
    frames, zeros, tail := AcceptedIsFramed(r, policy, s);
    forall f, g | f in frames && g in frames && Regular(f) && Regular(g) && SameFile(f.member.raw, g.member.raw)
      ensures FactOf(r, f) == FactOf(r, g)
    {
      RegularIsPlaced(r, policy, f);
      RegularIsPlaced(r, policy, g);
    }
  }
}
