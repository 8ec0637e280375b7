/** node_modules locators: the two locator grammars and the two resolution loops. */
module Locators {
  import opened Wrappers
  import opened Text

  const ENTER: string := "node_modules/"
  const NEST: string := "/node_modules/"

  // ----- Names and paths

  const MAX_PACKAGE_NAME_BYTES: nat := 214
  const MAX_INVENTORY_PATH_BYTES: nat := 512

  predicate NameChar(c: char) {
    'a' <= c <= 'z' || '0' <= c <= '9' || c == '-' || c == '_' || c == '.'
  }

  predicate ValidSegment(s: string) {
    s != "" && (forall c <- s :: NameChar(c)) && s != "." && s != ".."
  }

  predicate ValidPackageName(s: string) {
    && |s| <= MAX_PACKAGE_NAME_BYTES
    && if StartsWith(s, "@")
       then var parts := Split(s[1..], "/"); |parts| == 2 && ValidSegment(parts[0]) && ValidSegment(parts[1])
       else ValidSegment(s)
  }

  predicate ValidInventoryPath(s: string) {
    && s != "" && |s| <= MAX_INVENTORY_PATH_BYTES
    && (forall c <- s :: c != '\\' && !IsControl(c))
    && forall part <- Split(s, "/") :: part != "" && part != "." && part != ".."
  }

  /** The part of a package name between slashes. */
  ghost predicate IsSegment(s: string) {
    s !in {"", ".", ".."} && forall c <- s :: c in "abcdefghijklmnopqrstuvwxyz" || c in "0123456789" || c in "-_."
  }

  predicate IsScoped(s: string, scope: string, name: string) { s == "@" + scope + "/" + name }

  /** A package name is one segment, or a scope and a name; at most 214 bytes in all. */
  lemma PackageNameMeans(s: string)
    ensures ValidPackageName(s) <==>
      |s| <= 214 && (IsSegment(s) || exists scope, name :: IsSegment(scope) && IsSegment(name) && IsScoped(s, scope, name))
  {
    forall t: string ensures ValidSegment(t) <==> IsSegment(t) { SegmentMeans(t); }
    hide ValidSegment, IsSegment, IsScoped, Split;
    if StartsWith(s, "@") {
      ScopedIsNoSegment(s);
      if |s| <= 214 && ValidPackageName(s) {
        ScopedParts(s);
        var parts := Split(s[1..], "/");
        assert IsSegment(parts[0]) && IsSegment(parts[1]) && IsScoped(s, parts[0], parts[1]);
      }
      if scope, name :| IsSegment(scope) && IsSegment(name) && IsScoped(s, scope, name) {
        ScopedSplits(s, scope, name);
      }
    } else {
      forall scope, name ensures !IsScoped(s, scope, name) { NoScope(s, scope, name); }
    }
  }

  lemma ScopedParts(s: string)
    requires StartsWith(s, "@") && |Split(s[1..], "/")| == 2
    ensures var parts := Split(s[1..], "/"); IsScoped(s, parts[0], parts[1])
  {
    hide Split;
    var parts := Split(s[1..], "/");
    JoinInvertsSplit(s[1..], "/");
    assert parts == [parts[0], parts[1]] && parts[1..] == [parts[1]];
    assert s == "@" + s[1..];
  }

  lemma NoScope(s: string, scope: string, name: string)
    requires !StartsWith(s, "@")
    ensures !IsScoped(s, scope, name)
  {}

  lemma SegmentMeans(s: string)
    ensures ValidSegment(s) <==> IsSegment(s)
  {
    forall c: char ensures NameChar(c) <==> c in "abcdefghijklmnopqrstuvwxyz" || c in "0123456789" || c in "-_." {
      SegmentCharacter(c);
    }
  }

  lemma SegmentCharacter(c: char)
    ensures NameChar(c) <==> c in "abcdefghijklmnopqrstuvwxyz" || c in "0123456789" || c in "-_."
  {
    var (letters, digits) := ("abcdefghijklmnopqrstuvwxyz", "0123456789");
    if '0' <= c <= '9' { assert digits[c as int - '0' as int] == c; }
    if 'a' <= c <= 'z' { assert letters[c as int - 'a' as int] == c; }
  }

  lemma ScopedIsNoSegment(s: string)
    requires StartsWith(s, "@")
    ensures !IsSegment(s)
  {
    SegmentMeans(s);
    assert s[0] == '@' && s[0] in s;
  }

  lemma ScopedSplits(s: string, scope: string, name: string)
    requires ValidSegment(scope) && ValidSegment(name) && IsScoped(s, scope, name)
    ensures StartsWith(s, "@") && Split(s[1..], "/") == [scope, name]
  {
    assert s[1..] == scope + "/" + name;
    SplitAtSlash(scope, name);
    NoSlash(scope);
    NoSlash(name);
  }

  /** An inventory path leads straight down through printable characters. */
  lemma InventoryPathMeans(s: string, at: seq<string>)
    ensures ValidInventoryPath(s) <==>
      && 0 < |s| <= 512 && (forall c <- s :: c as int >= 32 && c as int != 127 && c != '\\')
      && Walk(at, Split(s, "/")) == Some(at + Split(s, "/"))
  {
    hide Walk, Split;
    PlainPartsLeadDown(at, Split(s, "/"));
  }

  // ----- Locators as lists of packages

  /** The locator of a package nested in the packages before it; the root is the empty text. */
  function LocatorOf(packages: seq<string>): string {
    if packages == [] then ""
    else if |packages| == 1 then ENTER + packages[0]
    else LocatorOf(packages[..|packages| - 1]) + NEST + packages[|packages| - 1]
  }

  /** The packages of a locator that the installer admits. */
  ghost predicate InstallerPackages(packages: seq<string>) {
    && packages != []
    && (forall p <- packages :: ValidPackageName(p))
    && (forall p <- packages[..|packages| - 1] :: !Contains(p + "/", ENTER))
    && !Contains(packages[|packages| - 1], ENTER)
  }

  /** The packages of a locator that the core profile admits for a name. */
  ghost predicate CorePackages(packages: seq<string>, name: string) {
    && packages != []
    && (forall p <- packages[..|packages| - 1] :: ValidPackageName(p) && !Contains(p + "/", NEST))
    && packages[|packages| - 1] == name
    && !Contains(name, NEST)
    && (|packages| > 1 ==> name != "")
  }

  ghost predicate InstallerAccepts(locator: string, name: string) {
    && ValidInventoryPath(locator)
    && exists packages ::
         InstallerPackages(packages) && LocatorOf(packages) == locator && packages[|packages| - 1] == name
  }

  ghost predicate CoreAccepts(locator: string, name: string) {
    exists packages :: CorePackages(packages, name) && LocatorOf(packages) == locator
  }

  lemma SlashesOfSeparators()
    ensures |ENTER| == 13 && |NEST| == 14
    ensures forall i | 0 <= i < 13 :: ENTER[i] == '/' <==> i == 12
    ensures forall i | 0 <= i < 14 :: NEST[i] == '/' <==> i == 0 || i == 13
    ensures NEST == "/" + ENTER
  {}

  /** An occurrence inside a piece of the text is an occurrence in the piece. */
  lemma OccursInPart(before: string, part: string, pattern: string, i: nat)
    requires |before| <= i && OccursAt(before + part, pattern, i)
    ensures Contains(part, pattern)
  {
    var k := i - |before|;
    assert (before + part)[|before|..] == part;
    assert part[k..k + |pattern|] == (before + part)[i..i + |pattern|];
    assert OccursAt(part, pattern, k);
  }

  lemma OccursInWhole(s: string, t: string, pattern: string)
    ensures Contains(s, pattern) ==> Contains(s + t, pattern)
  {
    if Contains(s, pattern) {
      var i: nat :| OccursAt(s, pattern, i);
      assert (s + t)[i..i + |pattern|] == s[i..i + |pattern|];
      assert OccursAt(s + t, pattern, i);
    }
  }

  lemma EnterInNest(s: string, i: nat)
    requires OccursAt(s, NEST, i)
    ensures s[i] == '/' && OccursAt(s, ENTER, i + 1)
  {
    hide ENTER, NEST;
    SlashesOfSeparators();
    assert s[i..i + |NEST|][0] == NEST[0];
    assert s[i + 1..i + 1 + |ENTER|] == s[i..i + |NEST|][1..] == ENTER;
  }

  lemma NestImpliesEnter(s: string)
    ensures Contains(s, NEST) ==> Contains(s, ENTER)
  {
    if Contains(s, NEST) {
      var i: nat :| OccursAt(s, NEST, i);
      EnterInNest(s, i);
    }
  }

  // ----- Resolution

  function Candidate(base: string, name: string): string {
    if base == "" then ENTER + name else base + NEST + name
  }

  function Parent(base: string): string {
    match FindLast(base, NEST)
    case None => ""
    case Some(i) => base[..i]
  }

  /** The bases that the loops visit, innermost first; the last is the root. */
  function Bases(base: string): (bases: seq<string>)
    ensures bases != []
    decreases |base|
  {
    if base == "" then [""] else [base] + Bases(Parent(base))
  }

  /** The first candidate that is recorded. */
  function Nearest(bases: seq<string>, name: string, records: set<string>): (r: Option<string>)
    ensures r.Some? ==> r.value in records
  {
    if bases == [] then None
    else if Candidate(bases[0], name) in records then Some(Candidate(bases[0], name))
    else Nearest(bases[1..], name, records)
  }

  lemma NearestAtRoot(name: string, records: set<string>)
    ensures Nearest(Bases(""), name, records).Some? <==> ENTER + name in records
  {
    assert Bases("")[1..] == [];
  }

  /** The installer's loop: shortens `base` until a candidate is found or the root was tried. */
  method Resolve(locator: string, name: string, records: set<string>) returns (r: Option<string>)
    ensures r == Nearest(Bases(locator), name, records)
  {
    var base := locator;
    while true
      invariant Nearest(Bases(locator), name, records) == Nearest(Bases(base), name, records)
      decreases |base|
    {
      var candidate := if base == "" then "node_modules/" + name else base + "/node_modules/" + name;
      if candidate in records {
        return Some(candidate);
      }
      if base == "" {
        assert Bases(base)[1..] == [];
        return None;
      }
      assert Bases(base)[1..] == Bases(Parent(base));
      var split := FindLast(base, "/node_modules/");
      base := if split.Some? then base[..split.value] else "";
    }
  }

  /** The shrinkwrap check's older loop: the same question with the root tried after the loop. */
  method DependencyResolves(locator: string, name: string, locators: set<string>) returns (ok: bool)
    ensures ok <==> Nearest(Bases(locator), name, locators).Some?
  {
    var base := locator;
    while true
      invariant Nearest(Bases(locator), name, locators).Some? <==> Nearest(Bases(base), name, locators).Some?
      decreases |base|
    {
      var candidate := if base == "" then "node_modules/" + name else base + "/node_modules/" + name;
      if candidate in locators {
        return true;
      }
      assert base != "" ==> Bases(base)[1..] == Bases(Parent(base));
      var index := FindLast(base, "/node_modules/");
      if index.None? {
        NearestAtRoot(name, locators);
        break;
      }
      base := base[..index.value];
    }
    ok := "node_modules/" + name in locators;
  }

  /** A separator that starts after the one before the last package reaches into the last package. */
  lemma LaterNestReachesLast(before: string, last: string, i: nat)
    requires OccursAt(before + NEST + last, NEST, i) && |before| < i
    ensures Contains(last, ENTER)
  {
    hide ENTER, NEST;
    SlashesOfSeparators();
    var (s, at) := (before + NEST + last, |before|);
    EnterInNest(s, i);
    assert i < at + 14 ==> s[i] == NEST[i - at];
    assert i >= at + 13;
    assert s == (before + NEST) + last;
    OccursInPart(before + NEST, last, ENTER, i + 1);
  }

  lemma NestInSingleReachesLast(last: string)
    ensures Contains(ENTER + last, NEST) ==> Contains(last, ENTER)
  {
    hide ENTER, NEST;
    SlashesOfSeparators();
    var s := ENTER + last;
    if Contains(s, NEST) {
      var i: nat :| OccursAt(s, NEST, i);
      EnterInNest(s, i);
      assert i < 13 ==> s[i] == ENTER[i];
      assert i >= 12;
      OccursInPart(ENTER, last, ENTER, i + 1);
    }
  }

  /** Stripping the last "/node_modules/" strips exactly the last package. */
  lemma ParentStripsOnePackage(packages: seq<string>)
    requires InstallerPackages(packages)
    ensures LocatorOf(packages) != "" && Parent(LocatorOf(packages)) == LocatorOf(packages[..|packages| - 1])
  {
    hide ENTER, NEST;
    SlashesOfSeparators();
    var (init, last) := (packages[..|packages| - 1], packages[|packages| - 1]);
    if |packages| == 1 {
      NestInSingleReachesLast(last);
      assert init == [];
    } else {
      LastNestIsBeforeLast(LocatorOf(init), last);
    }
  }

  lemma LastNestIsBeforeLast(before: string, last: string)
    requires !Contains(last, ENTER)
    ensures Parent(before + NEST + last) == before
  {
    hide ENTER, NEST;
    var s := before + NEST + last;
    assert OccursAt(s, NEST, |before|);
    var i := FindLast(s, NEST).value;
    if |before| < i {
      LaterNestReachesLast(before, last, i);
      assert false;
    }
    assert s[..|before|] == before;
  }

  lemma InitialPackages(packages: seq<string>)
    requires InstallerPackages(packages) && |packages| > 1
    ensures InstallerPackages(packages[..|packages| - 1])
  {
    var init := packages[..|packages| - 1];
    var before := init[|init| - 1];
    assert before in packages[..|packages| - 1];
    OccursInWhole(before, "/", ENTER);
  }

  /** On an admitted locator the loops visit the locators of all shorter package lists, in order. */
  lemma {:induction false} BasesAreEnclosingPackages(packages: seq<string>)
    requires InstallerPackages(packages)
    ensures |Bases(LocatorOf(packages))| == |packages| + 1
    ensures forall k | 0 <= k <= |packages| ::
              Bases(LocatorOf(packages))[k] == LocatorOf(packages[..|packages| - k])
  {
    hide LocatorOf, Parent;
    ParentStripsOnePackage(packages);
    var init := packages[..|packages| - 1];
    assert packages[..|packages|] == packages;
    assert LocatorOf([]) == "" by { LocatorOfNone(); }
    if |packages| == 1 {
      assert init == [] && Bases(LocatorOf(packages)) == [LocatorOf(packages)] + [""];
    } else {
      InitialPackages(packages);
      BasesAreEnclosingPackages(init);
      forall k | 1 <= k <= |packages|
        ensures Bases(LocatorOf(packages))[k] == LocatorOf(packages[..|packages| - k])
      {
        assert init[..|init| - (k - 1)] == packages[..|packages| - k];
      }
    }
  }

  lemma LocatorOfNone()
    ensures LocatorOf([]) == ""
  {}

  lemma {:induction false} NearestIsNotRoot(bases: seq<string>, name: string, records: set<string>)
    ensures Nearest(bases, name, records).Some? ==> Nearest(bases, name, records).value != ""
  {
    if bases != [] {
      NearestIsNotRoot(bases[1..], name, records);
    }
  }

  lemma CandidateIsNested(packages: seq<string>, name: string)
    requires packages != [] ==> LocatorOf(packages) != ""
    ensures Candidate(LocatorOf(packages), name) == LocatorOf(packages + [name])
  {
    assert (packages + [name])[..|packages|] == packages;
  }

  /** On an admitted locator, resolution answers with the nearest enclosing package that has the
      wanted package as a recorded dependency. */
  lemma {:induction false} ResolvesNearestEnclosing(packages: seq<string>, name: string, records: set<string>)
    requires InstallerPackages(packages)
    ensures var r := Nearest(Bases(LocatorOf(packages)), name, records);
            match r
            case None => forall k | 0 <= k <= |packages| :: LocatorOf(packages[..k] + [name]) !in records
            case Some(found) =>
              exists k | 0 <= k <= |packages| ::
                && found == LocatorOf(packages[..k] + [name]) && found in records
                && forall j | k < j <= |packages| :: LocatorOf(packages[..j] + [name]) !in records
  {
    hide LocatorOf, Bases, InstallerPackages, Candidate;
    var bases := Bases(LocatorOf(packages));
    BasesAreEnclosingPackages(packages);
    var n := |packages|;
    forall k | 0 <= k <= n ensures Candidate(bases[n - k], name) == LocatorOf(packages[..k] + [name]) {
      assert packages[..n - (n - k)] == packages[..k];
      LocatorOfNotEmpty(packages[..k]);
      CandidateIsNested(packages[..k], name);
    }
    NearestIsFirst(bases, name, records);
    var r := Nearest(bases, name, records);
    if r.Some? {
      var i :| 0 <= i < |bases| && Candidate(bases[i], name) == r.value
               && forall j | 0 <= j < i :: Candidate(bases[j], name) !in records;
      var k := n - i;
      assert r.value == LocatorOf(packages[..k] + [name]);
      forall j | k < j <= n ensures LocatorOf(packages[..j] + [name]) !in records {
        assert Candidate(bases[n - j], name) !in records;
      }
    } else {
      forall k | 0 <= k <= n ensures LocatorOf(packages[..k] + [name]) !in records {
        assert Candidate(bases[n - k], name) !in records;
      }
    }
  }

  lemma LocatorOfNotEmpty(packages: seq<string>)
    ensures packages != [] ==> LocatorOf(packages) != ""
  {}

  lemma {:induction false} NearestIsFirst(bases: seq<string>, name: string, records: set<string>)
    ensures Nearest(bases, name, records).None? ==> forall j | 0 <= j < |bases| :: Candidate(bases[j], name) !in records
    ensures Nearest(bases, name, records).Some? ==>
              exists i | 0 <= i < |bases| ::
                Candidate(bases[i], name) == Nearest(bases, name, records).value
                && forall j | 0 <= j < i :: Candidate(bases[j], name) !in records
  {
    if bases != [] && Candidate(bases[0], name) !in records {
      NearestIsFirst(bases[1..], name, records);
      if Nearest(bases, name, records).Some? {
        var i :| 0 <= i < |bases[1..]|
                 && Candidate(bases[1..][i], name) == Nearest(bases, name, records).value
                 && forall j | 0 <= j < i :: Candidate(bases[1..][j], name) !in records;
        assert Candidate(bases[i + 1], name) == Nearest(bases, name, records).value;
        forall j | 0 <= j < i + 1 ensures Candidate(bases[j], name) !in records {
          assert j > 0 ==> bases[j] == bases[1..][j - 1];
        }
      } else {
        forall j | 0 <= j < |bases| ensures Candidate(bases[j], name) !in records {
          assert j > 0 ==> bases[j] == bases[1..][j - 1];
        }
      }
    }
  }

  // ----- The installer's grammar: split at every "node_modules/"

  /** The pieces between the separators: every package but the last keeps its slash. */
  function PiecesOf(packages: seq<string>): (pieces: seq<string>)
    ensures |pieces| == |packages|
  {
    if packages == [] then []
    else seq(|packages| - 1, i requires 0 <= i < |packages| - 1 => packages[i] + "/") + [packages[|packages| - 1]]
  }

  predicate EndsWithSlash(s: string) { s != "" && s[|s| - 1] == '/' }

  predicate PieceOk(parts: seq<string>, i: nat, name: string)
    requires i < |parts|
  {
    if i + 1 == |parts| then ValidPackageName(parts[i]) && parts[i] == name
    else EndsWithSlash(parts[i]) && ValidPackageName(parts[i][..|parts[i]| - 1])
  }

  ghost predicate PiecesOk(parts: seq<string>, name: string)
    requires parts != []
  {
    && parts[0] == "" && |parts| >= 2
    && forall i | 1 <= i < |parts| :: PieceOk(parts, i, name)
  }

  lemma {:induction false} JoinSnoc(parts: seq<string>, last: string, separator: string)
    requires parts != []
    ensures Join(parts + [last], separator) == Join(parts, separator) + separator + last
  {
    var all := parts + [last];
    if |parts| == 1 {
      assert all[1..] == [last];
    } else {
      JoinSnoc(parts[1..], last, separator);
      assert all[1..] == parts[1..] + [last];
    }
  }

  lemma {:induction false} LocatorJoinsPieces(packages: seq<string>)
    requires packages != []
    ensures LocatorOf(packages) == Join([""] + PiecesOf(packages), ENTER)
  {
    hide ENTER, NEST;
    SlashesOfSeparators();
    var (init, last) := (packages[..|packages| - 1], packages[|packages| - 1]);
    if init == [] {
      assert PiecesOf(packages) == [last];
      JoinSnoc([""], last, ENTER);
    } else {
      var (before, beforeLast) := (init[..|init| - 1], init[|init| - 1]);
      LocatorJoinsPieces(init);
      var heads := [""] + seq(|init| - 1, i requires 0 <= i < |init| - 1 => init[i] + "/");
      assert [""] + PiecesOf(init) == heads + [beforeLast];
      assert [""] + PiecesOf(packages) == heads + [beforeLast + "/"] + [last];
      JoinSnoc(heads, beforeLast, ENTER);
      JoinSnoc(heads, beforeLast + "/", ENTER);
      JoinSnoc(heads + [beforeLast + "/"], last, ENTER);
      MoveSlash(Join(heads, ENTER), ENTER, beforeLast, last);
    }
  }

  lemma MoveSlash(heads: string, enter: string, before: string, last: string)
    ensures heads + enter + (before + "/") + enter + last == (heads + enter + before) + ("/" + enter) + last
  {}

  /** A separator cannot begin in a part that ends with a slash and reach beyond it. */
  lemma EarlierEnterIsInPart(part: string, rest: string, i: nat)
    requires part == "" || EndsWithSlash(part)
    requires i < |part| && OccursAt(part + ENTER + rest, ENTER, i)
    ensures Contains(part, ENTER)
  {
    hide ENTER, NEST;
    SlashesOfSeparators();
    var s := part + ENTER + rest;
    assert s[i..i + 13] == ENTER;
    var k := if i + 13 > |part| then |part| - 1 - i else 12;
    assert s[i..i + 13][k] == s[i + k];
    assert i + 13 <= |part|;
    assert part[i..i + 13] == s[i..i + 13];
    assert OccursAt(part, ENTER, i);
  }

  /** After a slash, or at the start, the next separator is found where it was put. */
  lemma EnterAfterSlash(part: string, rest: string)
    requires !Contains(part, ENTER) && (part == "" || EndsWithSlash(part))
    ensures Find(part + ENTER + rest, ENTER) == Some(|part|)
  {
    hide ENTER, NEST;
    var s := part + ENTER + rest;
    assert OccursAt(s, ENTER, |part|);
    var i := Find(s, ENTER).value;
    if i < |part| {
      EarlierEnterIsInPart(part, rest, i);
      assert false;
    }
  }

  lemma {:induction false} SplitInvertsJoin(parts: seq<string>)
    requires parts != []
    requires forall i | 0 <= i < |parts| :: !Contains(parts[i], ENTER)
    requires forall i | 0 <= i < |parts| - 1 :: parts[i] == "" || EndsWithSlash(parts[i])
    ensures Split(Join(parts, ENTER), ENTER) == parts
  {
    hide ENTER, NEST;
    SlashesOfSeparators();
    if |parts| > 1 {
      var rest := Join(parts[1..], ENTER);
      EnterAfterSlash(parts[0], rest);
      var s := parts[0] + ENTER + rest;
      assert s[..|parts[0]|] == parts[0] && s[|parts[0]| + |ENTER|..] == rest;
      SplitInvertsJoin(parts[1..]);
    }
  }

  function PackageOfPiece(parts: seq<string>, i: nat): string
    requires i < |parts|
  {
    if i + 1 < |parts| && EndsWithSlash(parts[i]) then parts[i][..|parts[i]| - 1] else parts[i]
  }

  lemma PieceOfPackage(parts: seq<string>, i: nat, name: string)
    requires i < |parts| && PieceOk(parts, i, name)
    ensures ValidPackageName(PackageOfPiece(parts, i))
    ensures if i + 1 < |parts| then PackageOfPiece(parts, i) + "/" == parts[i] else PackageOfPiece(parts, i) == parts[i] == name
  {
    hide ValidPackageName;
  }

  lemma PackagesOfPieces(parts: seq<string>, name: string) returns (packages: seq<string>)
    requires parts != [] && PiecesOk(parts, name)
    requires forall i | 0 <= i < |parts| :: !Contains(parts[i], ENTER)
    ensures InstallerPackages(packages) && [""] + PiecesOf(packages) == parts
    ensures packages[|packages| - 1] == name
  {
    hide ENTER, ValidPackageName, Contains, PieceOk, PackageOfPiece;
    var n := |parts| - 1;
    packages := seq(n, i requires 0 <= i < n => PackageOfPiece(parts, i + 1));
    forall i | 0 <= i < n
      ensures ValidPackageName(packages[i])
      ensures if i + 1 < n then packages[i] + "/" == parts[i + 1] else packages[i] == parts[i + 1] == name
    {
      PieceOfPackage(parts, i + 1, name);
    }
    forall p | p in packages[..n - 1] ensures !Contains(p + "/", ENTER) {
      var i :| 0 <= i < n - 1 && p == packages[i];
      assert p + "/" == parts[i + 1];
    }
    assert [""] + PiecesOf(packages) == parts;
  }

  lemma AcceptedHasPieces(packages: seq<string>)
    requires InstallerPackages(packages)
    ensures PiecesOk(Split(LocatorOf(packages), ENTER), packages[|packages| - 1])
  {
    hide ENTER, LocatorOf, ValidPackageName, Contains, Split;
    var (parts, name) := ([""] + PiecesOf(packages), packages[|packages| - 1]);
    LocatorJoinsPieces(packages);
    forall i | 0 <= i < |parts|
      ensures !Contains(parts[i], ENTER) && (i + 1 < |parts| ==> parts[i] == "" || EndsWithSlash(parts[i]))
    {
      if i == 0 {
        NothingContainsEnter();
      } else if i < |parts| - 1 {
        assert packages[i - 1] in packages[..|packages| - 1];
      }
    }
    SplitInvertsJoin(parts);
    forall i | 1 <= i < |parts| ensures PieceOk(parts, i, name) {
      assert packages[i - 1] in packages;
      assert i + 1 < |parts| ==> parts[i][..|parts[i]| - 1] == packages[i - 1];
    }
  }

  lemma NothingContainsEnter()
    ensures !Contains("", ENTER)
  {}

  lemma PiecesAreAccepted(locator: string, name: string)
    requires ValidInventoryPath(locator) && PiecesOk(Split(locator, ENTER), name)
    ensures InstallerAccepts(locator, name)
  {
    hide ENTER, LocatorOf, ValidInventoryPath, ValidPackageName, Split, Contains;
    SlashesOfSeparators();
    var parts := Split(locator, ENTER);
    forall i | 0 <= i < |parts| ensures !Contains(parts[i], ENTER) { SplitPartsAreClean(locator, ENTER, i); }
    var packages := PackagesOfPieces(parts, name);
    LocatorJoinsPieces(packages);
    JoinInvertsSplit(locator, ENTER);
  }

  lemma InstallerGrammar(locator: string, name: string)
    ensures InstallerAccepts(locator, name) <==>
              ValidInventoryPath(locator) && PiecesOk(Split(locator, ENTER), name)
  {
    hide ENTER, LocatorOf, ValidInventoryPath, PiecesOk, Contains, Split;
    SlashesOfSeparators();
    if InstallerAccepts(locator, name) {
      var packages :| InstallerPackages(packages) && LocatorOf(packages) == locator && packages[|packages| - 1] == name;
      AcceptedHasPieces(packages);
    }
    if ValidInventoryPath(locator) && PiecesOk(Split(locator, ENTER), name) {
      PiecesAreAccepted(locator, name);
    }
  }

  lemma EnterText()
    ensures ENTER == "node_modules/" && NEST == "/node_modules/"
  {}

  method ValidateInstallerLocator(locator: string, name: string) returns (ok: bool)
    ensures ok <==> InstallerAccepts(locator, name)
  {
    hide ENTER, Split, ValidInventoryPath, ValidPackageName, InstallerAccepts;
    InstallerGrammar(locator, name);
    assert ENTER == "node_modules/" by { EnterText(); }
    if !ValidInventoryPath(locator) { return false; }
    var parts := Split(locator, "node_modules/");
    if parts[0] != "" || |parts| < 2 { return false; }
    for i := 1 to |parts|
      invariant forall k | 1 <= k < i :: PieceOk(parts, k, name)
    {
      var p := parts[i];
      if i + 1 != |parts| {
        if !EndsWithSlash(p) {
          assert !PieceOk(parts, i, name);
          return false;
        }
        p := p[..|p| - 1];
      }
      if !ValidPackageName(p) || (i + 1 == |parts| && p != name) {
        assert !PieceOk(parts, i, name);
        return false;
      }
    }
    ok := true;
  }

  // ----- The core profile's grammar: one package at a time

  /** What remains after "node_modules/", split at its first "/node_modules/". */
  predicate CoreTailOk(rest: string, name: string)
    decreases |rest|
  {
    && StartsWith(rest, ENTER)
    && var tail := rest[|ENTER|..];
       match Find(tail, NEST)
       case None => tail == name
       case Some(i) => ValidPackageName(tail[..i]) && i + |NEST| < |tail| && CoreTailOk(tail[i + 1..], name)
  }

  /** A separator cannot begin in a package and reach beyond the slash that follows it. */
  lemma EarlierNestIsInPackage(package: string, rest: string, i: nat)
    requires i < |package| && OccursAt(package + NEST + rest, NEST, i)
    ensures Contains(package + "/", NEST)
  {
    hide ENTER, NEST;
    SlashesOfSeparators();
    var (s, part) := (package + NEST + rest, package + "/");
    assert s[i..i + 14] == NEST;
    var k := if i + 14 > |part| then |part| - 1 - i else 13;
    assert s[|part| - 1] == NEST[0];
    assert s[i..i + 14][k] == s[i + k];
    assert i + 14 <= |part|;
    assert s[..|part|] == part;
    assert part[i..i + 14] == s[i..i + 14];
    assert OccursAt(part, NEST, i);
  }

  lemma NestAfterPackage(package: string, rest: string)
    requires !Contains(package + "/", NEST)
    ensures Find(package + NEST + rest, NEST) == Some(|package|)
  {
    hide ENTER, NEST;
    var s := package + NEST + rest;
    assert OccursAt(s, NEST, |package|);
    var i := Find(s, NEST).value;
    if i < |package| {
      EarlierNestIsInPackage(package, rest, i);
      assert false;
    }
  }

  /** Nothing before the first separator, with its slash, holds a separator. */
  lemma BeforeFirstNest(tail: string, i: nat)
    requires Find(tail, NEST) == Some(i)
    ensures !Contains(tail[..i] + "/", NEST)
  {
    hide ENTER, NEST;
    SlashesOfSeparators();
    assert tail[i..i + |NEST|][0] == NEST[0];
    assert tail[..i] + "/" == tail[..i + 1];
    var part := tail[..i + 1];
    forall k: nat ensures !OccursAt(part, NEST, k) {
      if OccursAt(part, NEST, k) {
        OccursInLonger(tail, i + 1, NEST, k);
        assert false;
      }
    }
  }

  lemma {:induction false} LocatorFromFront(packages: seq<string>)
    requires |packages| > 1
    ensures LocatorOf(packages) == ENTER + packages[0] + "/" + LocatorOf(packages[1..])
  {
    hide ENTER, NEST;
    SlashesOfSeparators();
    var (init, last) := (packages[..|packages| - 1], packages[|packages| - 1]);
    if |packages| == 2 {
      assert init == [packages[0]] && packages[1..] == [last];
      assert ENTER + packages[0] + ("/" + ENTER) + last == ENTER + packages[0] + "/" + (ENTER + last);
    } else {
      LocatorFromFront(init);
      assert packages[1..][..|packages[1..]| - 1] == init[1..];
      assert (ENTER + packages[0] + "/" + LocatorOf(init[1..])) + NEST + last
             == ENTER + packages[0] + "/" + (LocatorOf(init[1..]) + NEST + last);
    }
  }

  lemma CoreRest(packages: seq<string>, name: string)
    requires CorePackages(packages, name) && |packages| > 1
    ensures CorePackages(packages[1..], name) && name != ""
    ensures ValidPackageName(packages[0]) && !Contains(packages[0] + "/", NEST)
    ensures packages[1..] != [] && packages[1..][|packages[1..]| - 1] == name
  {
    hide NEST, ValidPackageName;
    assert packages[0] in packages[..|packages| - 1];
    assert packages[1..][..|packages[1..]| - 1] == packages[..|packages| - 1][1..];
  }

  /** The first package of a tail is taken off at its separator. */
  lemma CoreTailStep(first: string, after: string, name: string)
    requires ValidPackageName(first) && !Contains(first + "/", NEST) && after != ""
    ensures CoreTailOk(ENTER + first + "/" + (ENTER + after), name) <==> CoreTailOk(ENTER + after, name)
  {
    hide ENTER, NEST, ValidPackageName, Contains;
    SlashesOfSeparators();
    var (rest, tail) := (ENTER + first + "/" + (ENTER + after), first + NEST + after);
    assert rest[..|ENTER|] == ENTER && rest[|ENTER|..] == tail;
    NestAfterPackage(first, after);
    assert tail[..|first|] == first && tail[|first| + 1..] == ENTER + after;
  }

  lemma {:induction false} CorePackagesAreAccepted(packages: seq<string>, name: string)
    requires CorePackages(packages, name)
    ensures CoreTailOk(LocatorOf(packages), name)
    decreases |packages|
  {
    hide ENTER, NEST, ValidPackageName;
    if |packages| == 1 {
      SlashesOfSeparators();
      assert LocatorOf(packages)[|ENTER|..] == name;
    } else {
      hide CorePackages, LocatorOf, Contains, CoreTailOk;
      var rest := packages[1..];
      CoreRest(packages, name);
      LocatorFromFront(packages);
      CorePackagesAreAccepted(rest, name);
      StartsWithEnter(rest);
      LastNameRemains(rest);
      var after := LocatorOf(rest)[|ENTER|..];
      assert LocatorOf(rest) == ENTER + after;
      CoreTailStep(packages[0], after, name);
    }
  }

  lemma {:induction false} StartsWithEnter(packages: seq<string>)
    requires packages != []
    ensures StartsWith(LocatorOf(packages), ENTER)
  {
    if |packages| > 1 {
      StartsWithEnter(packages[..|packages| - 1]);
    }
  }

  lemma {:induction false} LastNameRemains(packages: seq<string>)
    requires packages != [] && packages[|packages| - 1] != ""
    ensures |LocatorOf(packages)| > |ENTER|
  {
    if |packages| > 1 {
      StartsWithEnter(packages[..|packages| - 1]);
    }
  }

  lemma PackageInFront(first: string, more: seq<string>, name: string)
    requires CorePackages(more, name) && ValidPackageName(first) && !Contains(first + "/", NEST) && name != ""
    ensures CorePackages([first] + more, name)
    ensures LocatorOf([first] + more) == ENTER + first + "/" + LocatorOf(more)
  {
    hide ENTER, NEST, ValidPackageName;
    var packages := [first] + more;
    assert packages[1..] == more;
    forall p | p in packages[..|packages| - 1] ensures ValidPackageName(p) && !Contains(p + "/", NEST) {
      assert p == first || p in more[..|more| - 1];
    }
    LocatorFromFront(packages);
  }

  lemma {:induction false} AcceptedTailHasPackages(rest: string, name: string) returns (packages: seq<string>)
    requires CoreTailOk(rest, name)
    ensures CorePackages(packages, name) && LocatorOf(packages) == rest
    ensures |rest| > |ENTER| ==> name != ""
    decreases |rest|
  {
    hide ENTER, NEST, ValidPackageName, CorePackages, LocatorOf;
    SlashesOfSeparators();
    var tail := rest[|ENTER|..];
    match Find(tail, NEST)
    case None =>
      packages := [name];
      SinglePackage(name);
    case Some(i) =>
      BeforeFirstNest(tail, i);
      assert tail[i..i + |NEST|][0] == NEST[0];
      assert tail[i..i + 1] == [tail[i]] == "/";
      var more := AcceptedTailHasPackages(tail[i + 1..], name);
      packages := [tail[..i]] + more;
      PackageInFront(tail[..i], more, name);
      ThreePieces(tail, i, i + 1);
      assert rest == ENTER + tail;
      Prepend(ENTER, tail[..i], tail[i + 1..]);
  }

  lemma Prepend(enter: string, first: string, rest: string)
    ensures enter + (first + "/" + rest) == enter + first + "/" + rest
  {}

  lemma SinglePackage(name: string)
    ensures !Contains(name, NEST) ==> CorePackages([name], name)
    ensures LocatorOf([name]) == ENTER + name
  {}

  lemma CoreGrammar(locator: string, name: string)
    ensures CoreAccepts(locator, name) <==> CoreTailOk(locator, name)
  {
    if CoreAccepts(locator, name) {
      var packages :| CorePackages(packages, name) && LocatorOf(packages) == locator;
      CorePackagesAreAccepted(packages, name);
    }
    if CoreTailOk(locator, name) {
      var packages := AcceptedTailHasPackages(locator, name);
    }
  }

  method ValidateCoreLocator(locator: string, name: string) returns (ok: bool)
    ensures ok <==> CoreAccepts(locator, name)
  {
    hide ENTER, NEST, ValidPackageName, CoreAccepts;
    CoreGrammar(locator, name);
    EnterText();
    SlashesOfSeparators();
    var rest := locator;
    while true
      invariant CoreTailOk(locator, name) <==> CoreTailOk(rest, name)
      decreases |rest|
    {
      if !StartsWith(rest, "node_modules/") { return false; }
      var tail := rest[|ENTER|..];
      var split := Find(tail, "/node_modules/");
      if split.Some? {
        var parent, next := tail[..split.value], tail[split.value + |NEST|..];
        if !ValidPackageName(parent) { return false; }
        if next == "" { return false; }
        rest := tail[|parent| + 1..];
      } else {
        return tail == name;
      }
    }
  }

  /** The installer admits exactly the core-admitted locators whose path and name are valid and whose
      packages never spell the separator; in particular it admits nothing the core profile refuses. */
  lemma InstallerIsCleanCore(locator: string, name: string)
    ensures InstallerAccepts(locator, name) ==> CoreAccepts(locator, name)
    ensures InstallerAccepts(locator, name) <==>
              && ValidInventoryPath(locator) && ValidPackageName(name)
              && exists packages ::
                   && CorePackages(packages, name) && LocatorOf(packages) == locator
                   && (forall p <- packages[..|packages| - 1] :: !Contains(p + "/", ENTER)) && !Contains(name, ENTER)
  {
    hide ENTER, NEST, ValidPackageName, ValidInventoryPath;
    if InstallerAccepts(locator, name) {
      var packages :| InstallerPackages(packages) && LocatorOf(packages) == locator && packages[|packages| - 1] == name;
      forall p | p in packages[..|packages| - 1] ensures ValidPackageName(p) && !Contains(p + "/", NEST) {
        NestImpliesEnter(p + "/");
      }
      NestImpliesEnter(name);
      ValidNameNotEmpty(name);
      assert CorePackages(packages, name);
    }
    if ValidInventoryPath(locator) && ValidPackageName(name)
       && exists packages ::
            && CorePackages(packages, name) && LocatorOf(packages) == locator
            && (forall p <- packages[..|packages| - 1] :: !Contains(p + "/", ENTER)) && !Contains(name, ENTER)
    {
      var packages :|
        && CorePackages(packages, name) && LocatorOf(packages) == locator
        && (forall p <- packages[..|packages| - 1] :: !Contains(p + "/", ENTER)) && !Contains(name, ENTER);
      forall p | p in packages ensures ValidPackageName(p) {
        var i :| 0 <= i < |packages| && packages[i] == p;
        assert i < |packages| - 1 ==> packages[..|packages| - 1][i] == p;
      }
      assert InstallerPackages(packages);
    }
  }

  lemma ValidNameNotEmpty(name: string)
    ensures ValidPackageName(name) ==> name != ""
  {}

  lemma ScopeMayBeNodeModules()
    ensures ValidPackageName("@node_modules/y")
  {
    hide NEST;
    var plain := "node_modules/y";
    assert "@node_modules/y"[1..] == plain;
    FirstSlash(plain, 12);
    NoSlash("y");
    assert plain[13..] == "y" && plain[..12] == "node_modules";
    assert Split(plain, "/") == ["node_modules"] + ["y"];
    NodeModulesIsSegment();
  }

  lemma NodeModulesIsSegment()
    ensures ValidSegment("node_modules") && ValidSegment("y")
  {
    var s := "node_modules";
    forall c | c in s ensures NameChar(c) {
      assert 'a' <= 'n' && forall i | 0 <= i < |s| :: 'a' <= s[i] <= 'z' || s[i] == '_';
    }
  }

  lemma ScopedNameHasNoNest()
    ensures !Contains("@node_modules/y", NEST)
  {
    var name := "@node_modules/y";
    forall i: nat ensures !OccursAt(name, NEST, i) {
      if OccursAt(name, NEST, i) {
        EnterInNest(name, i);
        assert false;
      }
    }
  }

  /** The two grammars differ: a package in the scope "@node_modules" is core-admitted only. */
  lemma CoreDoesNotImplyInstaller()
    ensures var (locator, name) := ("node_modules/@node_modules/y", "@node_modules/y");
            ValidPackageName(name) && CoreAccepts(locator, name) && !InstallerAccepts(locator, name)
  {
    hide ValidPackageName, ValidInventoryPath, NEST;
    var (locator, name) := ("node_modules/@node_modules/y", "@node_modules/y");
    ScopeMayBeNodeModules();
    ScopedNameHasNoNest();
    SinglePackage(name);
    assert ENTER + name == locator;
    assert name[1..14] == ENTER;
    assert OccursAt(name, ENTER, 1);
  }
}
