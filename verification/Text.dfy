/** Text as Rust compares, searches and splits it. */
module Text {
  import opened Wrappers

  /** Lexicographic order: negative, zero or positive. */
  function Compare(a: string, b: string): (r: int) {
    if a == [] then if b == [] then 0 else -1
    else if b == [] then 1
    else if a[0] < b[0] then -1
    else if b[0] < a[0] then 1
    else Compare(a[1..], b[1..])
  }

  predicate Less(a: string, b: string) { Compare(a, b) < 0 }

  lemma {:induction false} CompareZero(a: string, b: string)
    ensures Compare(a, b) == 0 <==> a == b
  {
    if a != [] && b != [] {
      CompareZero(a[1..], b[1..]);
      assert a == [a[0]] + a[1..] && b == [b[0]] + b[1..];
    }
  }

  lemma {:induction false} CompareFlips(a: string, b: string)
    ensures Compare(a, b) == -Compare(b, a)
  {
    if a != [] && b != [] {
      CompareFlips(a[1..], b[1..]);
    }
  }

  lemma {:induction false} LessTransitive(a: string, b: string, c: string)
    requires Less(a, b) && Less(b, c)
    ensures Less(a, c)
  {
    if a != [] && b != [] && c != [] && a[0] == b[0] == c[0] {
      LessTransitive(a[1..], b[1..], c[1..]);
    }
  }

  /** The order of dictionaries: a proper prefix first, otherwise the text whose first different byte is smaller. */
  lemma {:induction false} LessMeans(a: string, b: string)
    ensures Less(a, b) <==> a < b || exists k :: 0 <= k < |a| && k < |b| && a[..k] == b[..k] && a[k] < b[k]
  {
    if a != [] && b != [] && a[0] == b[0] {
      LessMeans(a[1..], b[1..]);
      PrefixOfTails(a, b);
      if k :| 0 <= k < |a[1..]| && k < |b[1..]| && a[1..][..k] == b[1..][..k] && a[1..][k] < b[1..][k] {
        assert a[..k + 1] == [a[0]] + a[1..][..k] && b[..k + 1] == [b[0]] + b[1..][..k];
        assert a[k + 1] < b[k + 1];
      }
      if k :| 0 <= k < |a| && k < |b| && a[..k] == b[..k] && a[k] < b[k] {
        assert k > 0;
        assert a[1..][..k - 1] == a[..k][1..] && b[1..][..k - 1] == b[..k][1..];
        assert a[1..][k - 1] < b[1..][k - 1];
      }
    } else if a != [] && b != [] {
      assert a[..0] == b[..0];
      if k :| 0 <= k < |a| && k < |b| && a[..k] == b[..k] && a[k] < b[k] {
        if k > 0 { assert a[..k][0] == b[..k][0]; }
      }
    }
  }

  lemma PrefixOfTails(a: string, b: string)
    requires a != [] && b != [] && a[0] == b[0]
    ensures a < b <==> a[1..] < b[1..]
  {
    if a < b { assert b[..|a|] == a && b[1..][..|a| - 1] == a[1..]; }
    if a[1..] < b[1..] { assert b[1..][..|a| - 1] == a[1..] && b[..|a|] == [b[0]] + b[1..][..|a| - 1] && a == [a[0]] + a[1..]; }
  }

  // ----- Searching

  predicate OccursAt(s: string, pattern: string, i: nat) {
    i + |pattern| <= |s| && s[i..i + |pattern|] == pattern
  }

  ghost predicate Contains(s: string, pattern: string) {
    exists i: nat :: OccursAt(s, pattern, i)
  }

  /** The first occurrence at `from` or later. */
  function FindFrom(s: string, pattern: string, from: nat): (r: Option<nat>)
    requires from <= |s|
    ensures r.Some? ==> from <= r.value && OccursAt(s, pattern, r.value)
    ensures forall i: nat | from <= i && (r.Some? ==> i < r.value) :: !OccursAt(s, pattern, i)
    decreases |s| - from
  {
    if OccursAt(s, pattern, from) then Some(from)
    else if from == |s| then None
    else FindFrom(s, pattern, from + 1)
  }

  function Find(s: string, pattern: string): (r: Option<nat>)
    ensures r.Some? ==> OccursAt(s, pattern, r.value)
    ensures r.Some? ==> forall i: nat | i < r.value :: !OccursAt(s, pattern, i)
    ensures r.None? <==> !Contains(s, pattern)
  {
    FindFrom(s, pattern, 0)
  }

  /** The last occurrence that starts at `from` or earlier. */
  function FindBack(s: string, pattern: string, from: nat): (r: Option<nat>)
    ensures r.Some? ==> r.value <= from && OccursAt(s, pattern, r.value)
    ensures forall i: nat | i <= from && (r.Some? ==> r.value < i) :: !OccursAt(s, pattern, i)
  {
    if OccursAt(s, pattern, from) then Some(from)
    else if from == 0 then None
    else FindBack(s, pattern, from - 1)
  }

  function FindLast(s: string, pattern: string): (r: Option<nat>)
    ensures r.Some? ==> OccursAt(s, pattern, r.value)
    ensures r.Some? ==> forall i: nat | r.value < i :: !OccursAt(s, pattern, i)
    ensures r.None? <==> !Contains(s, pattern)
  {
    FindBack(s, pattern, |s|)
  }

  predicate StartsWith(s: string, prefix: string) { prefix <= s }

  /** The pieces between the non-overlapping occurrences of a pattern, from the left. */
  function Split(s: string, pattern: string): (parts: seq<string>)
    requires pattern != ""
    ensures parts != []
    decreases |s|
  {
    match Find(s, pattern)
    case None => [s]
    case Some(i) => [s[..i]] + Split(s[i + |pattern|..], pattern)
  }

  /** Puts a separator between the parts. */
  function Join(parts: seq<string>, separator: string): string {
    if parts == [] then ""
    else if |parts| == 1 then parts[0]
    else parts[0] + separator + Join(parts[1..], separator)
  }

  lemma ThreePieces(s: string, i: nat, j: nat)
    requires i <= j <= |s|
    ensures s == s[..i] + s[i..j] + s[j..]
  {}

  lemma {:induction false} JoinInvertsSplit(s: string, pattern: string)
    requires pattern != ""
    ensures Join(Split(s, pattern), pattern) == s
    decreases |s|
  {
    match Find(s, pattern)
    case None =>
    case Some(i) =>
      var rest := s[i + |pattern|..];
      JoinInvertsSplit(rest, pattern);
      assert Split(s, pattern)[1..] == Split(rest, pattern);
      ThreePieces(s, i, i + |pattern|);
  }

  lemma OccursInLonger(s: string, n: nat, pattern: string, k: nat)
    requires n <= |s| && OccursAt(s[..n], pattern, k)
    ensures OccursAt(s, pattern, k)
  {
    assert s[..n][k..k + |pattern|] == s[k..k + |pattern|];
  }

  lemma NothingBeforeFirst(s: string, pattern: string, i: nat)
    requires pattern != "" && Find(s, pattern) == Some(i)
    ensures !Contains(s[..i], pattern)
  {
    var before := s[..i];
    forall j: nat ensures !OccursAt(before, pattern, j) {
      if OccursAt(before, pattern, j) {
        OccursInLonger(s, i, pattern, j);
        assert false;
      }
    }
  }

  lemma {:induction false} SplitPartsAreClean(s: string, pattern: string, k: nat)
    requires pattern != "" && k < |Split(s, pattern)|
    ensures !Contains(Split(s, pattern)[k], pattern)
    decreases |s|
  {
    match Find(s, pattern)
    case None =>
    case Some(i) =>
      if k == 0 {
        NothingBeforeFirst(s, pattern, i);
      } else {
        SplitPartsAreClean(s[i + |pattern|..], pattern, k - 1);
      }
  }

  // ----- Slashes

  predicate IsControl(c: char) { c < ' ' || c == 127 as char }

  lemma ControlCodes(c: char)
    ensures IsControl(c) <==> c as int < 32 || c as int == 127
  {}

  /** The characters of a list. */
  predicate Of(s: string, characters: string) { forall c <- s :: c in characters }

  // ----- Walking a path

  /** Where the parts of a path lead from a place: an empty part and a dot stay, two dots go up and cannot leave the top. */
  function Walk(at: seq<string>, parts: seq<string>): Option<seq<string>>
    decreases |parts|
  {
    if parts == [] then Some(at)
    else if parts[0] == "" || parts[0] == "." then Walk(at, parts[1..])
    else if parts[0] == ".." then if at == [] then None else Walk(at[..|at| - 1], parts[1..])
    else Walk(at + [parts[0]], parts[1..])
  }

  lemma {:induction false} WalkIsNoLonger(at: seq<string>, parts: seq<string>)
    ensures Walk(at, parts).Some? ==> |Walk(at, parts).value| <= |at| + |parts|
    decreases |parts|
  {
    if parts == [] {
    } else if parts[0] == "" || parts[0] == "." {
      WalkIsNoLonger(at, parts[1..]);
    } else if parts[0] == ".." {
      if at != [] { WalkIsNoLonger(at[..|at| - 1], parts[1..]); }
    } else {
      WalkIsNoLonger(at + [parts[0]], parts[1..]);
    }
  }

  /** Parts lead straight down, each one level, exactly when none of them is empty, a dot or two dots. */
  lemma {:induction false} PlainPartsLeadDown(at: seq<string>, parts: seq<string>)
    ensures Walk(at, parts) == Some(at + parts) <==> forall p <- parts :: p != "" && p != "." && p != ".."
    decreases |parts|
  {
    if parts == [] {
      assert at + parts == at;
    } else {
      var (first, rest) := (parts[0], parts[1..]);
      assert parts == [first] + rest && first in parts && |at + parts| == |at| + 1 + |rest|;
      if first == "" || first == "." {
        WalkIsNoLonger(at, rest);
      } else if first == ".." {
        if at != [] { WalkIsNoLonger(at[..|at| - 1], rest); }
      } else {
        PlainPartsLeadDown(at + [first], rest);
        assert at + [first] + rest == at + parts;
        assert forall p :: p in parts <==> p == first || p in rest;
      }
    }
  }

  lemma SlashAt(s: string, i: nat)
    ensures OccursAt(s, "/", i) <==> i < |s| && s[i] == '/'
  {
    if i < |s| { assert s[i..i + 1] == [s[i]]; }
  }

  lemma FirstSlash(s: string, i: nat)
    requires i < |s| && s[i] == '/' && forall k | 0 <= k < i :: s[k] != '/'
    ensures Find(s, "/") == Some(i)
  {
    SlashAt(s, i);
    if Find(s, "/").Some? { SlashAt(s, Find(s, "/").value); }
  }

  lemma FindSlash(s: string)
    ensures match Find(s, "/")
      case None => '/' !in s
      case Some(i) => i < |s| && s[i] == '/' && '/' !in s[..i]
  {
    forall k: nat ensures OccursAt(s, "/", k) <==> k < |s| && s[k] == '/' { SlashAt(s, k); }
  }

  lemma NoSlash(s: string)
    requires '/' !in s
    ensures Split(s, "/") == [s] && Find(s, "/") == None
  {
    FindSlash(s);
  }

  /** The parts of two texts with a slash between them. */
  lemma {:induction false} SplitAtSlash(a: string, b: string)
    ensures Split(a + "/" + b, "/") == Split(a, "/") + Split(b, "/")
    decreases |a|
  {
    hide Find;
    var s := a + "/" + b;
    FindSlash(a);
    match Find(a, "/")
    case None =>
      FirstSlash(s, |a|);
      assert s[..|a|] == a && s[|a| + 1..] == b;
    case Some(i) =>
      FirstSlash(s, i);
      assert s[..i] == a[..i] && s[i + 1..] == a[i + 1..] + "/" + b;
      SplitAtSlash(a[i + 1..], b);
  }
}
