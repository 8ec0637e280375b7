/** The rules of the tar parser in the format's own terms: fields and what is written in them, names, roots, extensions
    and the links of a Node archive. */
module TarRules {
  import opened Wrappers
  import opened Text
  import opened JsonScan
  import opened Inventory
  import opened TarHeader
  import opened TarArchive
  import opened TarFrames
  import opened TarPrinter

  // ----- Text fields

  /** The field holds the text and is filled up with NUL bytes. */
  ghost predicate HoldsText(field: Bytes, s: string) {
    IsName(s) && |s| <= |field| && field == AsBytes(s) + Zeros(|field| - |s|)
  }

  lemma AsBytesOfText(b: Bytes)
    requires 0 !in b && ValidUtf8(b)
    ensures IsName(AsText(b)) && AsBytes(AsText(b)) == b
  {
    hide ValidUtf8;
    var s := AsText(b);
    forall c <- s ensures 0 as char < c < 256 as char {
      var i :| 0 <= i < |s| && s[i] == c;
      assert b[i] in b;
    }
    assert AsBytes(s) == b;
  }

  /** A text field is read exactly when it holds some text, and then as that text. */
  lemma TextMeans(field: Bytes, s: string)
    ensures TarString(field) == Some(s) <==> HoldsText(field, s)
  {
    hide ValidUtf8;
    var end := FirstNul(field);
    if TarString(field) == Some(s) {
      var text := field[..end];
      assert 0 !in text;
      AsBytesOfText(text);
      assert |field| - |s| == |field[end..]| && field[end..] == Zeros(|field| - |s|);
      assert field == field[..end] + field[end..];
    }
    if HoldsText(field, s) {
      var (text, zeros) := (AsBytes(s), Zeros(|field| - |s|));
      forall i | 0 <= i < |text| ensures text[i] != 0 { assert s[i] in s; }
      FirstNulAfter(text, zeros);
      assert field[..|text|] == text && field[|text|..] == zeros && AsText(text) == s;
    }
  }

  /** The path of a plain header: the name field, after the prefix field and a slash if there is a prefix. */
  lemma PathMeans(h: Bytes, path: string)
    requires |h| == BLOCK
    ensures TarPath(h) == Some(path) <==> exists prefix, name ::
      HoldsText(h[0..100], name) && HoldsText(h[345..500], prefix) && name != "" && path == Placed(prefix, name)
  {
    hide HoldsText, TarString;
    assert h[..100] == h[0..100];
    forall s: string
      ensures TarString(h[0..100]) == Some(s) <==> HoldsText(h[0..100], s)
      ensures TarString(h[345..500]) == Some(s) <==> HoldsText(h[345..500], s)
    {
      TextMeans(h[0..100], s);
      TextMeans(h[345..500], s);
    }
    if TarPath(h) == Some(path) {
      var (name, prefix) := (TarString(h[0..100]).value, TarString(h[345..500]).value);
      assert HoldsText(h[0..100], name) && HoldsText(h[345..500], prefix) && path == Placed(prefix, name);
    }
  }

  function Placed(prefix: string, name: string): string { if prefix == "" then name else prefix + "/" + name }

  // ----- Number fields

  /** The numbers that every header must hold: mode, modification time and device numbers, and the owners, which in the
      oldest pax archives must be in base 256 instead. */
  lemma NumericHeaderMeans(h: Bytes, policy: ArchivePolicy)
    requires |h| == BLOCK
    ensures NumericHeaderOk(h, policy) <==>
      && (forall field <- [h[100..108], h[136..148], h[329..337], h[337..345]] :: ParseTarNumber(field).Some?)
      && (forall field <- [h[108..116], h[116..124]] ::
            if policy.LegacyNodeTarNpm? then field[0] >= 0x80 else ParseTarNumber(field).Some?)
  {
    hide ParseTarNumber;
    var (a, b) := ([h[100..108], h[136..148], h[329..337], h[337..345]], [h[108..116], h[116..124]]);
    assert a[0] in a && a[1] in a && a[2] in a && a[3] in a && b[0] in b && b[1] in b;
  }

  lemma StarTimesMean(h: Bytes, times: nat)
    requires |h| == BLOCK
    ensures LegacyStarTimes(h) == Some(times) <==>
      && AllZero(h[345..476]) && h[488..500] == Ascii("15200453521") + [0]
      && ((times == 0 && h[476..488] == Ascii("15200453521") + [0]) || (times == 1 && h[476..488] == Ascii("15200453534") + [0]))
  {
    TimesAreText();
    assert COMMON_TIME[9] != ALTERNATE_TIME[9];
    hide Ascii;
  }

  lemma TimesAreText()
    ensures COMMON_TIME == Ascii("15200453521") + [0] && ALTERNATE_TIME == Ascii("15200453534") + [0]
  {}

  // ----- Names and roots

  lemma WithoutSlashMeans(path: string)
    ensures WithoutSlash(path + "/") == path
    ensures path == "" || path[|path| - 1] != '/' ==> WithoutSlash(path) == path
  {
    assert (path + "/")[..|path|] == path;
  }

  lemma SplitHead(path: string)
    ensures '/' !in RootOf(path)
    ensures RootOf(path) == path || exists rest :: path == RootOf(path) + "/" + rest
  {
    FindSlash(path);
    if Find(path, "/").Some? {
      var i := Find(path, "/").value;
      assert path == path[..i] + "/" + path[i + 1..];
    }
  }

  /** The files whose contents are kept lie directly under the root, and have their own bounds. */
  lemma CaptureLimitMeans(path: string, role: string, limit: nat)
    ensures CaptureLimit(path) == Some((role, limit)) <==>
      && (exists root :: '/' !in root && path == root + "/" + role)
      && ((role == "package.json" && limit == 65536) || (role == "npm-shrinkwrap.json" && limit == 1048576))
  {
    hide Split;
    var parts := Split(path, "/");
    if CaptureLimit(path) == Some((role, limit)) {
      JoinInvertsSplit(path, "/");
      assert parts == [parts[0], parts[1]] && parts[1..] == [parts[1]];
      FirstPartIsClean(path);
      assert path == parts[0] + "/" + role;
    }
    if root :| '/' !in root && path == root + "/" + role {
      if role == "package.json" || role == "npm-shrinkwrap.json" {
        SplitAtSlash(root, role);
        NoSlash(root);
        NoSlash(role);
      }
    }
  }

  lemma FirstPartIsClean(path: string)
    ensures '/' !in Split(path, "/")[0]
  {
    FindSlash(path);
  }

  lemma RootMeans(policy: ArchivePolicy, root: string, observed: Option<string>)
    ensures RootOk(policy, root, observed) <==>
      && root != "" && (observed.None? || observed == Some(root)) && (policy.RootNpm? ==> root == "package")
      && (policy.ExactNode? ==> "node-v" <= root && |root| >= 10 && root[|root| - 10..] == "-linux-x64")
  {}

  // ----- Extensions

  /** Which extensions each policy allows: pax headers for the two pax policies, long names for Node archives. */
  lemma ExtensionsByPolicy(r: Readers, policy: ArchivePolicy, s: Bytes, p: nat, st: State)
    requires p + BLOCK <= |s| && Record(r, policy, s, p, st).Some?
    ensures s[p + 156] == 'x' as int as byte ==>
      (policy.LegacyNodeTarNpm? || policy.CanonicalPaxNpm?) && DataSize(s[p..p + BLOCK]).value <= 262144
    ensures s[p + 156] == 'L' as int as byte ==>
      && policy.ExactNode? && 0 < DataSize(s[p..p + BLOCK]).value <= 513 && TarPath(s[p..p + BLOCK]) == Some("././@LongLink")
  {
    hide MemberRecord, NumericHeaderOk, ParseTarNumber, ValidTarChecksum, LongName, TarPath;
    assert s[p..p + BLOCK][156] == s[p + 156];
  }

  /** A long name is written with one closing NUL, and may not be absolute or hold a backslash or a control character. */
  lemma LongNameMeans(bytes: Bytes, name: string)
    ensures LongName(bytes) == Some(name) <==>
      && IsName(name) && bytes == AsBytes(name) + [0]
      && name != "" && name[0] != '/' && forall c <- name :: c as int >= 32 && c as int != 127 && c != '\\'
  {
    hide ValidUtf8;
    if LongName(bytes).Some? {
      var text := bytes[..|bytes| - 1];
      AsBytesOfText(text);
      assert bytes == text + [0];
    }
    if IsName(name) && bytes == AsBytes(name) + [0] {
      assert bytes[..|bytes| - 1] == AsBytes(name) && AsText(AsBytes(name)) == name;
      forall b <- AsBytes(name) ensures b != 0 {
        var i :| 0 <= i < |name| && AsBytes(name)[i] == b;
        assert name[i] in name;
      }
    }
    if name != "" { assert StartsWith(name, "/") <==> name[0] == '/'; }
  }

  /** How the canonical pax archives cut a path down to the header: the directory in the prefix field, and of the last part
      its first hundred bytes, or its first 99 and a NUL, in the name field; always less than the whole part, and never
      within a character. */
  lemma PaxHeaderMeans(h: Bytes, path: string)
    requires |h| == BLOCK && forall c <- path :: c < 256 as char
    ensures PaxHeaderOk(CanonicalPaxNpm, h, path) <==> exists directory, last ::
      CutPath(path, directory, last) && HoldsText(h[345..500], directory) && HoldsCut(h[0..100], last)
  {
    hide HoldsText, HoldsCut, CutPath;
    forall directory, last | CutPath(path, directory, last)
      ensures PaxHeaderOk(CanonicalPaxNpm, h, path) <==> HoldsText(h[345..500], directory) && HoldsCut(h[0..100], last)
    {
      PaxHeaderAt(h, path, directory, last);
    }
    if PaxHeaderOk(CanonicalPaxNpm, h, path) { var directory, last := Cut(path); }
  }

  lemma Cut(path: string) returns (directory: string, last: string)
    requires FindLast(path, "/").Some?
    ensures CutPath(path, directory, last)
  {
    forall i: nat ensures OccursAt(path, "/", i) <==> i < |path| && path[i] == '/' { SlashAt(path, i); }
    var slash := FindLast(path, "/").value;
    directory, last := path[..slash], path[slash + 1..];
    assert path[slash] == '/';
  }

  lemma PaxHeaderAt(h: Bytes, path: string, directory: string, last: string)
    requires |h| == BLOCK && (forall c <- path :: c < 256 as char) && CutPath(path, directory, last)
    ensures PaxHeaderOk(CanonicalPaxNpm, h, path) <==> HoldsText(h[345..500], directory) && HoldsCut(h[0..100], last)
  {
    hide HoldsText, TarString, HoldsCut, ValidUtf8, FindLast;
    CutIsLast(path, directory, last);
    TextMeans(h[345..500], directory);
    forall c <- last ensures c < 256 as char { assert c in path; }
    assert AsBytes(path)[|directory| + 1..] == AsBytes(last);
    CutMeans(h, last);
  }

  predicate CutPath(path: string, directory: string, last: string) {
    path == directory + "/" + last && '/' !in last
  }

  lemma CutIsLast(path: string, directory: string, last: string)
    requires CutPath(path, directory, last)
    ensures FindLast(path, "/") == Some(|directory|) && directory == path[..|directory|] && last == path[|directory| + 1..]
  {
    forall i: nat ensures OccursAt(path, "/", i) <==> i < |path| && path[i] == '/' { SlashAt(path, i); }
    assert path[|directory|] == '/';
    assert forall k | |directory| < k < |path| :: path[k] == last[k - |directory| - 1];
  }

  ghost predicate HoldsCut(field: Bytes, last: string) {
    && |field| == 100 && (forall c <- last :: c < 256 as char)
    && ((|last| > 100 && field[99] != 0 && ValidUtf8(field) && field == AsBytes(last)[..100])
        || (|last| > 99 && field[99] == 0 && ValidUtf8(field[..99]) && field[..99] == AsBytes(last)[..99]))
  }

  lemma CutMeans(h: Bytes, last: string)
    requires |h| == BLOCK && forall c <- last :: c < 256 as char
    ensures HoldsCut(h[0..100], last) <==>
      var base := AsBytes(last);
      if h[99] == 0 then |base| > 99 && ValidUtf8(base[..99]) && h[..99] == base[..99]
      else |base| > 100 && ValidUtf8(base[..100]) && h[..100] == base[..100]
  {
    hide ValidUtf8;
    assert h[0..100] == h[..100] && h[0..100][99] == h[99] && h[0..100][..99] == h[..99];
  }

  /** Where a member's path comes from: a pending long name, which the name field must repeat; for the oldest star archives
      the name field alone; a pending pax path, which the header must agree with; otherwise the header. */
  lemma PathComesFrom(policy: ArchivePolicy, h: Bytes, longName: Option<string>, pax: PaxHeader, path: string, times: nat)
    requires |h| == BLOCK
    ensures RawPath(policy, h, longName, pax) == Some((path, times)) <==>
      match longName
      case Some(name) =>
        && path == name && times == 0 && |name| > 100 && (forall c <- name :: c < 256 as char)
        && h[0..100] == AsBytes(name)[..100] && ValidUtf8(h[0..100]) && AllZero(h[345..500])
      case None =>
        if policy.LegacyStarNpm? then HoldsText(h[0..100], path) && path != "" && LegacyStarTimes(h) == Some(times)
        else if pax.path.Some? then path == pax.path.value && times == 0 && PaxHeaderOk(policy, h, path)
        else TarPath(h) == Some(path) && times == 0
  {
    hide HoldsText, TarString, TarPath, LegacyStarTimes, PaxHeaderOk, ValidUtf8;
    assert h[..100] == h[0..100];
    TextMeans(h[0..100], path);
  }

  /** A size that a pending pax header states must be the header's own; then it changes nothing. */
  lemma PaxSizeMustAgree(policy: ArchivePolicy, h: Bytes, size: nat, st: State, pax: PaxHeader)
    requires |h| == BLOCK && st.pendingPax == Some(pax) && pax.size.Some?
    ensures pax.size.value != size ==> ReadMember(policy, h, size, st).None?
    ensures pax.size.value == size ==>
      ReadMember(policy, h, size, st) == ReadMember(policy, h, size, st.(pendingPax := Some(pax.(size := None))))
  {
    hide RawPath, PlacedPath, ParseTarNumber, RootOf, RootOk;
    RawPathIgnoresSize(policy, h, st.pendingLongName, pax);
  }

  lemma RawPathIgnoresSize(policy: ArchivePolicy, h: Bytes, longName: Option<string>, pax: PaxHeader)
    requires |h| == BLOCK
    ensures RawPath(policy, h, longName, pax) == RawPath(policy, h, longName, pax.(size := None))
  {
    hide LongNameHeaderOk, LegacyStarTimes, TarString, PaxHeaderOk, TarPath;
  }

  // ----- The links of a Node archive

  predicate LinkPart(part: string) { part != "" && part != "." && (part == ".." || forall c <- part :: !IsControl(c)) }

  /** Following a target is walking it, and fails on an empty part, a dot or a control character. */
  lemma {:induction false} FollowIsAWalk(parts: seq<string>, target: seq<string>)
    ensures FollowParts(parts, target) == if forall t <- target :: LinkPart(t) then Text.Walk(parts, target) else None
    decreases |target|
  {
    if target != [] {
      var (first, rest) := (target[0], target[1..]);
      assert target == [first] + rest && first in target;
      assert forall t :: t in target <==> t == first || t in rest;
      if LinkPart(first) {
        if first == ".." {
          if parts != [] { FollowIsAWalk(parts[..|parts| - 1], rest); }
        } else {
          FollowIsAWalk(parts + [first], rest);
        }
      }
    }
  }

  lemma {:induction false} FollowNames(parts: seq<string>, names: seq<string>)
    requires forall n <- names :: n != "" && n != "." && n != ".." && forall c <- n :: !IsControl(c)
    ensures FollowParts(parts, names) == Some(parts + names)
    decreases |names|
  {
    if names == [] {
      assert parts + names == parts;
    } else {
      assert names[0] in names && forall n <- names[1..] :: n in names;
      FollowNames(parts + [names[0]], names[1..]);
      assert parts + [names[0]] + names[1..] == parts + names;
    }
  }

  /** Two dots go up, anything else goes down: a target of some ups and then plain names. */
  lemma {:induction false} FollowUpsAndNames(parts: seq<string>, ups: nat, names: seq<string>)
    requires ups <= |parts|
    requires forall n <- names :: n != "" && n != "." && n != ".." && forall c <- n :: !IsControl(c)
    ensures FollowParts(parts, Ups(ups) + names) == Some(parts[..|parts| - ups] + names)
    decreases ups
  {
    var target := Ups(ups) + names;
    if ups == 0 {
      assert target == names && parts[..|parts|] == parts;
      FollowNames(parts, names);
    } else {
      assert target[1..] == Ups(ups - 1) + names && target[0] == "..";
      assert parts[..|parts| - 1][..|parts| - 1 - (ups - 1)] == parts[..|parts| - ups];
      FollowUpsAndNames(parts[..|parts| - 1], ups - 1, names);
    }
  }

  function Ups(n: nat): (parts: seq<string>)
    ensures |parts| == n && forall i | 0 <= i < n :: parts[i] == ".."
  {
    seq(n, i => "..")
  }

  /** Five levels of plain names. */
  lemma SplitFive(a: string, b: string, c: string, d: string, e: string)
    requires '/' !in a && '/' !in b && '/' !in c && '/' !in d && '/' !in e
    ensures Split(a + "/" + (b + "/" + (c + "/" + (d + "/" + e))), "/") == [a, b, c, d, e]
  {
    hide Split;
    SplitAtSlash(a, b + "/" + (c + "/" + (d + "/" + e)));
    SplitAtSlash(b, c + "/" + (d + "/" + e));
    SplitAtSlash(c, d + "/" + e);
    SplitAtSlash(d, e);
    NoSlash(a);
    NoSlash(b);
    NoSlash(c);
    NoSlash(d);
    NoSlash(e);
  }

  predicate IsPlainName(n: string) { n != "" && n != "." && n != ".." && forall c <- n :: !IsControl(c) && c != '/' }

  /** A link in <root>/bin to "../" and a path leads to that path under the root. */
  lemma LinkLeadsUnderRoot(root: string, tool: string, rest: string)
    requires '/' !in root && '/' !in tool && forall n <- Split(rest, "/") :: IsPlainName(n)
    ensures ResolveLink(root + "/" + ("bin" + "/" + tool), "../" + rest) == Some(root + "/" + rest)
  {
    hide Split, FollowParts;
    SplitAtSlash(root, "bin" + "/" + tool);
    SplitAtSlash("bin", tool);
    NoSlash(root);
    NoSlash("bin");
    NoSlash(tool);
    SplitAtSlash("..", rest);
    NoSlash("..");
    assert ".." + "/" + rest == "../" + rest;
    var (parts, names) := ([root, "bin"], Split(rest, "/"));
    assert [root, "bin", tool][..2] == parts && [root] + (["bin"] + [tool]) == [root, "bin", tool];
    FollowUpsAndNames(parts, 1, names);
    assert Ups(1) == [".."] && parts[..1] == [root];
    JoinInvertsSplit(rest, "/");
    assert ([root] + names)[1..] == names;
  }

  const COREPACK: string := "lib/node_modules/corepack/dist/corepack.js"
  const NPM: string := "lib/node_modules/npm/bin/npm-cli.js"
  const NPX: string := "lib/node_modules/npm/bin/npx-cli.js"

  lemma ToolIsPlain(package: string, directory: string, file: string)
    requires IsPlainName(package) && IsPlainName(directory) && IsPlainName(file)
    ensures forall n <- Split("lib" + "/" + ("node_modules" + "/" + (package + "/" + (directory + "/" + file))), "/") :: IsPlainName(n)
  {
    assert IsPlainName("lib") && IsPlainName("node_modules");
    hide Split, IsPlainName;
    assert forall n | IsPlainName(n) :: '/' !in n by { NoSlashInPlain(); }
    SplitFive("lib", "node_modules", package, directory, file);
  }

  lemma NoSlashInPlain()
    ensures forall n | IsPlainName(n) :: '/' !in n
  {}

  lemma ToolsArePlain()
    ensures forall n <- Split(COREPACK, "/") + Split(NPM, "/") + Split(NPX, "/") :: IsPlainName(n)
  {
    hide Split;
    CorepackIsPlain();
    NpmIsPlain();
    NpxIsPlain();
    hide IsPlainName;
  }

  lemma CorepackIsPlain()
    ensures forall n <- Split(COREPACK, "/") :: IsPlainName(n)
  {
    assert IsPlainName("corepack") && IsPlainName("dist") && IsPlainName("corepack.js");
    hide Split, IsPlainName;
    ToolIsPlain("corepack", "dist", "corepack.js");
    CorepackInParts();
  }

  lemma CorepackInParts()
    ensures COREPACK == "lib" + "/" + ("node_modules" + "/" + ("corepack" + "/" + ("dist" + "/" + "corepack.js")))
  {}

  lemma NpmIsPlain()
    ensures forall n <- Split(NPM, "/") :: IsPlainName(n)
  {
    assert IsPlainName("npm") && IsPlainName("bin") && IsPlainName("npm-cli.js");
    hide Split, IsPlainName;
    ToolIsPlain("npm", "bin", "npm-cli.js");
    NpmInParts();
  }

  lemma NpmInParts()
    ensures NPM == "lib" + "/" + ("node_modules" + "/" + ("npm" + "/" + ("bin" + "/" + "npm-cli.js")))
  {}

  lemma NpxIsPlain()
    ensures forall n <- Split(NPX, "/") :: IsPlainName(n)
  {
    assert IsPlainName("npm") && IsPlainName("bin") && IsPlainName("npx-cli.js");
    hide Split, IsPlainName;
    ToolIsPlain("npm", "bin", "npx-cli.js");
    NpxInParts();
  }

  lemma NpxInParts()
    ensures NPX == "lib" + "/" + ("node_modules" + "/" + ("npm" + "/" + ("bin" + "/" + "npx-cli.js")))
  {}

  /** The three links, and where each leads. */
  ghost predicate IsTool(root: string, link: string, target: string, file: string) {
    || (link == root + "/bin/corepack" && target == "../lib/node_modules/corepack/dist/corepack.js" && file == root + "/" + COREPACK)
    || (link == root + "/bin/npm" && target == "../lib/node_modules/npm/bin/npm-cli.js" && file == root + "/" + NPM)
    || (link == root + "/bin/npx" && target == "../lib/node_modules/npm/bin/npx-cli.js" && file == root + "/" + NPX)
  }

  lemma CorepackTarget()
    ensures "../" + COREPACK == "../lib/node_modules/corepack/dist/corepack.js"
  {}

  lemma NpmTarget()
    ensures "../" + NPM == "../lib/node_modules/npm/bin/npm-cli.js"
  {}

  lemma NpxTarget()
    ensures "../" + NPX == "../lib/node_modules/npm/bin/npx-cli.js"
  {}

  lemma LinkPaths(root: string)
    ensures root + "/" + ("bin" + "/" + "corepack") == root + "/bin/corepack"
    ensures root + "/" + ("bin" + "/" + "npm") == root + "/bin/npm" && root + "/" + ("bin" + "/" + "npx") == root + "/bin/npx"
  {
    assert "bin" + "/" + "corepack" == "bin/corepack" && "bin" + "/" + "npm" == "bin/npm" && "bin" + "/" + "npx" == "bin/npx";
    assert "/" + "bin/corepack" == "/bin/corepack" && "/" + "bin/npm" == "/bin/npm" && "/" + "bin/npx" == "/bin/npx";
  }

  lemma ToolsResolve(root: string, link: string, target: string, file: string)
    requires '/' !in root && IsTool(root, link, target, file)
    ensures ResolveLink(link, target) == Some(file)
  {
    hide Split, IsPlainName, ResolveLink, COREPACK, NPM, NPX;
    ToolsArePlain();
    CorepackTarget();
    NpmTarget();
    NpxTarget();
    LinkPaths(root);
    assert forall n <- Split(COREPACK, "/") :: n in Split(COREPACK, "/") + Split(NPM, "/") + Split(NPX, "/");
    assert forall n <- Split(NPM, "/") :: n in Split(COREPACK, "/") + Split(NPM, "/") + Split(NPX, "/");
    assert forall n <- Split(NPX, "/") :: n in Split(COREPACK, "/") + Split(NPM, "/") + Split(NPX, "/");
    LinkLeadsUnderRoot(root, "corepack", COREPACK);
    LinkLeadsUnderRoot(root, "npm", NPM);
    LinkLeadsUnderRoot(root, "npx", NPX);
  }

  lemma FileIsNoLink(root: string, link: string, target: string, file: string)
    requires IsTool(root, link, target, file)
    ensures (root + "/") <= file && file !in NodeLinks(root)
  {
    var at := |root| + 1;
    assert COREPACK[0] == NPM[0] == NPX[0] == 'l';
    hide COREPACK, NPM, NPX;
    assert file[..at] == root + "/" && file[at] == 'l';
    forall key <- NodeLinks(root) ensures key[at] == 'b' {}
  }

  lemma LinksAreTools(root: string, link: string)
    ensures link in NodeLinks(root) <==> exists target, file :: IsTool(root, link, target, file)
    ensures forall target, file | IsTool(root, link, target, file) :: NodeLinks(root)[link] == target
  {
    LinksDiffer(root);
    if link == root + "/bin/corepack" {
      assert IsTool(root, link, "../lib/node_modules/corepack/dist/corepack.js", root + "/" + COREPACK);
    }
    if link == root + "/bin/npm" { assert IsTool(root, link, "../lib/node_modules/npm/bin/npm-cli.js", root + "/" + NPM); }
    if link == root + "/bin/npx" { assert IsTool(root, link, "../lib/node_modules/npm/bin/npx-cli.js", root + "/" + NPX); }
    hide COREPACK, NPM, NPX;
  }

  lemma LinksDiffer(root: string)
    ensures root + "/bin/corepack" != root + "/bin/npm" && root + "/bin/npm" != root + "/bin/npx"
    ensures root + "/bin/corepack" != root + "/bin/npx"
  {
    var at := |root| + 5;
    assert (root + "/bin/corepack")[at] == 'c' && (root + "/bin/npm")[at] == 'n' && (root + "/bin/npx")[at] == 'n';
    assert (root + "/bin/npm")[at + 2] == 'm' && (root + "/bin/npx")[at + 2] == 'x';
  }

  /** Exactly the three links are there, and so are the three files they lead to. */
  ghost predicate HasTools(st: State, root: string) {
    && (forall link <- st.links :: exists target, file :: IsTool(root, link, target, file))
    && (forall link, target, file | IsTool(root, link, target, file) ::
          link in st.links && st.links[link] == target && file in st.regularFacts)
  }

  lemma ToolFacts(root: string, link: string, target: string, file: string)
    requires '/' !in root && IsTool(root, link, target, file)
    ensures link in NodeLinks(root) && NodeLinks(root)[link] == target
    ensures ResolveLink(link, target) == Some(file) && StartsWith(file, root + "/") && file !in NodeLinks(root)
  {
    hide ResolveLink;
    LinksAreTools(root, link);
    ToolsResolve(root, link, target, file);
    FileIsNoLink(root, link, target, file);
    hide IsTool, NodeLinks;
  }

  lemma LinksOkHasTools(st: State, root: string)
    requires st.root == Some(root) && '/' !in root && LinksOk(st)
    ensures HasTools(st, root)
  {
    hide IsTool, NodeLinks, ResolveLink;
    forall link <- st.links ensures exists target, file :: IsTool(root, link, target, file) { LinksAreTools(root, link); }
    forall link, target, file | IsTool(root, link, target, file)
      ensures link in st.links && st.links[link] == target && file in st.regularFacts
    {
      ToolFacts(root, link, target, file);
    }
  }

  lemma HasToolsLinksOk(st: State, root: string)
    requires st.root == Some(root) && '/' !in root && HasTools(st, root)
    ensures LinksOk(st)
  {
    hide IsTool, NodeLinks, ResolveLink;
    forall link <- st.links
      ensures link in NodeLinks(root) && NodeLinks(root)[link] == st.links[link]
      ensures var resolved := ResolveLink(link, st.links[link]);
        && resolved.Some? && StartsWith(resolved.value, root + "/") && resolved.value in st.regularFacts
        && resolved.value !in NodeLinks(root)
    {
      var target, file :| IsTool(root, link, target, file);
      ToolFacts(root, link, target, file);
    }
    forall link <- NodeLinks(root) ensures link in st.links {
      LinksAreTools(root, link);
    }
    assert st.links == NodeLinks(root);
  }

  /** The check of the links amounts to this. */
  lemma LinksMean(st: State, root: string)
    requires st.root == Some(root) && '/' !in root
    ensures LinksOk(st) <==> HasTools(st, root)
  {
    hide LinksOk, HasTools;
    if LinksOk(st) { LinksOkHasTools(st, root); }
    if HasTools(st, root) { HasToolsLinksOk(st, root); }
  }

  // ----- The end of the archive

  /** What the end of an npm archive must find: a package.json under the root, two of the later times in the oldest star
      archives, no alias in a root package, and every alias a copy of its member, once. */
  lemma NpmEndMeans(policy: ArchivePolicy, st: State, result: ParsedTar)
    requires policy.IsNpm()
    ensures Finish(policy, st) == Some(result) <==>
      && st.pendingPax.None? && st.pendingLongName.None? && st.members > 0 && st.root.Some? && "package.json" in st.captured
      && (policy.LegacyStarNpm? ==> st.starAlternateTimes == 2) && (policy.RootNpm? ==> st.aliases == [])
      && (forall i, j | 0 <= i < j < |st.aliases| :: st.aliases[i].0 != st.aliases[j].0)
      && (forall alias <- st.aliases :: alias.0 in st.regularFacts && st.regularFacts[alias.0] == alias.1)
      && result == ParsedTar(st.captured, st.regularFacts, None, st.members, st.headers, st.gnuLongNames, st.paxHeaders,
                             st.regularCount, st.directoryCount, st.symlinkCount)
  {
    AliasesMean(st);
    hide AliasesOk, LinksOk;
  }

  lemma AliasesMean(st: State)
    ensures AliasesOk(st) <==>
      && (forall i, j | 0 <= i < j < |st.aliases| :: st.aliases[i].0 != st.aliases[j].0)
      && (forall alias <- st.aliases :: alias.0 in st.regularFacts && st.regularFacts[alias.0] == alias.1)
  {}

  lemma NodeEndMeans(st: State, result: ParsedTar)
    ensures Finish(ExactNode, st) == Some(result) <==>
      && st.pendingPax.None? && st.pendingLongName.None? && st.members > 0 && LinksOk(st)
      && result == ParsedTar(st.captured, st.regularFacts, st.root, st.members, st.headers, st.gnuLongNames, st.paxHeaders,
                             st.regularCount, st.directoryCount, st.symlinkCount)
  {
    hide AliasesOk, LinksOk;
  }

  predicate RootFits(policy: ArchivePolicy, st: State) {
    st.root.Some? ==> '/' !in st.root.value && RootOk(policy, st.root.value, None)
  }

  lemma MemberHasRoot(policy: ArchivePolicy, h: Bytes, size: nat, st: State)
    requires |h| == BLOCK && ReadMember(policy, h, size, st).Some?
    ensures var root := RootOf(ReadMember(policy, h, size, st).value.path); '/' !in root && RootOk(policy, root, None)
  {
    hide RawPath, PlacedPath, ParseTarNumber, RootOf;
    SplitHead(ReadMember(policy, h, size, st).value.path);
  }

  lemma MemberSetsRoot(r: Readers, policy: ArchivePolicy, s: Bytes, h: Bytes, p: nat, size: nat, st: State)
    requires |h| == BLOCK && MemberRecord(r, policy, s, h, p, size, st).Some?
    ensures ReadMember(policy, h, size, st).Some?
    ensures MemberRecord(r, policy, s, h, p, size, st).value.root == Some(RootOf(ReadMember(policy, h, size, st).value.path))
  {
    hide ReadMember, LinkTarget, CaptureLimit, RegularMember, RootOf;
  }

  lemma RecordKeepsRoot(r: Readers, policy: ArchivePolicy, s: Bytes, p: nat, st: State)
    requires p + BLOCK <= |s| && RootFits(policy, st) && Record(r, policy, s, p, st).Some?
    ensures RootFits(policy, Record(r, policy, s, p, st).value)
  {
    hide NumericHeaderOk, ParseTarNumber, ValidTarChecksum, LongName, TarPath, MemberRecord, ReadMember, RootOf, RootOk;
    var h := s[p..p + BLOCK];
    var (size, counted) := (DataSize(h).value, st.(headers := st.headers + 1));
    if h[156] != TYPE_PAX && h[156] != TYPE_LONG_NAME {
      MemberSetsRoot(r, policy, s, h, p + BLOCK, size, counted);
      MemberHasRoot(policy, h, size, counted);
    }
  }

  lemma {:induction false} RecordsKeepRoot(r: Readers, policy: ArchivePolicy, s: Bytes, p: nat, st: State)
    requires RootFits(policy, st) && Records(r, policy, s, p, st).Some?
    ensures RootFits(policy, Records(r, policy, s, p, st).value.0)
    decreases |s| - p
  {
    hide Record, RootFits, IsZeroBlock;
    if !IsZeroBlock(s, p) {
      RecordKeepsRoot(r, policy, s, p, st);
      RecordFits(r, policy, s, p, st);
      RecordsKeepRoot(r, policy, s, RecordEnd(s, p), Record(r, policy, s, p, st).value);
    }
  }

  /** An accepted Node archive has one root, "node-v...-linux-x64", and holds the three tools that the links in its bin
      directory lead to. */
  lemma AcceptedNodeArchive(r: Readers, s: Bytes) returns (root: string)
    requires Parsed(r, ExactNode, s).Some?
    ensures Parsed(r, ExactNode, s).value.nodeRoot == Some(root) && '/' !in root
    ensures "node-v" <= root && |root| >= 10 && root[|root| - 10..] == "-linux-x64"
    ensures var files := Parsed(r, ExactNode, s).value.regularFacts;
      root + "/" + COREPACK in files && root + "/" + NPM in files && root + "/" + NPX in files
  {
    hide Records, ZeroBlocks, LinksOk, AliasesOk, RootOk, COREPACK, NPM, NPX, HasTools;
    var (last, _) := Records(r, ExactNode, s, 0, Start()).value;
    RecordsKeepRoot(r, ExactNode, s, 0, Start());
    NodeEndMeans(last, Parsed(r, ExactNode, s).value);
    root := LinksHaveRoot(last);
    RootMeans(ExactNode, root, None);
    LinksMean(last, root);
    ThreeTools(last, root);
  }

  lemma LinksHaveRoot(st: State) returns (root: string)
    requires LinksOk(st)
    ensures st.root == Some(root)
  {
    root := st.root.value;
  }

  lemma ToolIsThere(st: State, root: string, link: string, target: string, file: string)
    requires HasTools(st, root) && IsTool(root, link, target, file)
    ensures file in st.regularFacts
  {
    hide IsTool;
  }

  lemma ThreeTools(st: State, root: string)
    requires HasTools(st, root)
    ensures root + "/" + COREPACK in st.regularFacts && root + "/" + NPM in st.regularFacts && root + "/" + NPX in st.regularFacts
  {
    hide COREPACK, NPM, NPX, HasTools;
    ToolIsThere(st, root, root + "/bin/corepack", "../lib/node_modules/corepack/dist/corepack.js", root + "/" + COREPACK);
    ToolIsThere(st, root, root + "/bin/npm", "../lib/node_modules/npm/bin/npm-cli.js", root + "/" + NPM);
    ToolIsThere(st, root, root + "/bin/npx", "../lib/node_modules/npm/bin/npx-cli.js", root + "/" + NPX);
  }
}
