/** The expansion of npm version ranges into conjunctions of full-version comparators. */
module NpmRange {
  import opened Wrappers
  import Text

  // ----- Versions and their precedence (section 11 of SemVer 2.0.0)

  datatype Identifier = Numeric(value: nat) | Alphanumeric(text: string)

  datatype Version = Version(major: nat, minor: nat, patch: nat, pre: seq<Identifier>)

  function CompareNat(a: nat, b: nat): int { if a < b then -1 else if a == b then 0 else 1 }

  function CompareIdentifier(a: Identifier, b: Identifier): int {
    match (a, b)
    case (Numeric(m), Numeric(n)) => CompareNat(m, n)
    case (Numeric(_), Alphanumeric(_)) => -1
    case (Alphanumeric(_), Numeric(_)) => 1
    case (Alphanumeric(s), Alphanumeric(t)) => Text.Compare(s, t)
  }

  function CompareIdentifiers(a: seq<Identifier>, b: seq<Identifier>): int {
    if a == [] then if b == [] then 0 else -1
    else if b == [] then 1
    else if CompareIdentifier(a[0], b[0]) != 0 then CompareIdentifier(a[0], b[0])
    else CompareIdentifiers(a[1..], b[1..])
  }

  /** A version without a prerelease comes after all its prereleases. */
  function ComparePre(a: seq<Identifier>, b: seq<Identifier>): int {
    if a == [] then if b == [] then 0 else 1
    else if b == [] then -1
    else CompareIdentifiers(a, b)
  }

  function CompareCore(v: Version, w: Version): int {
    if v.major != w.major then CompareNat(v.major, w.major)
    else if v.minor != w.minor then CompareNat(v.minor, w.minor)
    else CompareNat(v.patch, w.patch)
  }

  function Compare(v: Version, w: Version): int {
    if CompareCore(v, w) != 0 then CompareCore(v, w) else ComparePre(v.pre, w.pre)
  }

  /** X.Y.Z-0 is the least version with the core X.Y.Z: what is below it has a smaller core. */
  lemma ZeroIsLeastPrerelease(v: Version, w: Version)
    requires w.pre == [Numeric(0)]
    ensures Compare(v, w) < 0 <==> CompareCore(v, w) < 0
  {
    if CompareCore(v, w) == 0 && v.pre != [] {
      assert CompareIdentifiers(v.pre, w.pre) >= 0;
    }
  }

  /** The core is compared number by number. */
  lemma CoreOrder(v: Version, w: Version)
    ensures CompareCore(v, w) < 0 <==>
      v.major < w.major || (v.major == w.major && (v.minor < w.minor || (v.minor == w.minor && v.patch < w.patch)))
    ensures CompareCore(v, w) == 0 <==> v.major == w.major && v.minor == w.minor && v.patch == w.patch
    ensures CompareCore(v, w) == -CompareCore(w, v)
  {}

  lemma IdentifierOrder(a: Identifier, b: Identifier)
    ensures CompareIdentifier(a, b) < 0 <==>
      || (a.Numeric? && b.Numeric? && a.value < b.value)
      || (a.Numeric? && b.Alphanumeric?)
      || (a.Alphanumeric? && b.Alphanumeric? && Text.Less(a.text, b.text))
    ensures CompareIdentifier(a, b) == 0 <==> a == b
    ensures CompareIdentifier(a, b) == -CompareIdentifier(b, a)
  {
    if a.Alphanumeric? && b.Alphanumeric? {
      Text.CompareZero(a.text, b.text);
      Text.CompareFlips(a.text, b.text);
    }
  }

  /** Prereleases are compared identifier by identifier; when one list starts the other, the shorter comes first. */
  lemma {:induction false} IdentifiersOrder(a: seq<Identifier>, b: seq<Identifier>)
    ensures CompareIdentifiers(a, b) < 0 <==>
      a < b || exists k :: 0 <= k < |a| && k < |b| && a[..k] == b[..k] && CompareIdentifier(a[k], b[k]) < 0
    ensures CompareIdentifiers(a, b) == 0 <==> a == b
    ensures CompareIdentifiers(a, b) == -CompareIdentifiers(b, a)
  {
    hide CompareIdentifier;
    if a != [] && b != [] {
      IdentifierOrder(a[0], b[0]);
      if a[0] == b[0] {
        IdentifiersOrder(a[1..], b[1..]);
        assert a == [a[0]] + a[1..] && b == [b[0]] + b[1..];
        TailsOrder(a, b);
      } else {
        assert a[..0] == b[..0];
        forall k | 0 < k < |a| && k < |b| ensures a[..k] != b[..k] {
          assert a[..k][0] != b[..k][0];
        }
      }
    }
  }

  lemma TailsOrder(a: seq<Identifier>, b: seq<Identifier>)
    requires a != [] && b != [] && a[0] == b[0] && CompareIdentifier(a[0], b[0]) == 0
    ensures a < b <==> a[1..] < b[1..]
    ensures (exists k :: 0 <= k < |a| && k < |b| && a[..k] == b[..k] && CompareIdentifier(a[k], b[k]) < 0)
      <==> exists k :: 0 <= k < |a[1..]| && k < |b[1..]| && a[1..][..k] == b[1..][..k]
                       && CompareIdentifier(a[1..][k], b[1..][k]) < 0
  {
    hide CompareIdentifier;
    assert a == [a[0]] + a[1..] && b == [b[0]] + b[1..];
    if k :| 0 <= k < |a[1..]| && k < |b[1..]| && a[1..][..k] == b[1..][..k] && CompareIdentifier(a[1..][k], b[1..][k]) < 0 {
      assert a[..k + 1] == [a[0]] + a[1..][..k] && b[..k + 1] == [b[0]] + b[1..][..k];
      assert CompareIdentifier(a[k + 1], b[k + 1]) < 0;
    }
    if k :| 0 <= k < |a| && k < |b| && a[..k] == b[..k] && CompareIdentifier(a[k], b[k]) < 0 {
      assert k > 0;
      assert a[1..][..k - 1] == a[..k][1..] && b[1..][..k - 1] == b[..k][1..];
      assert CompareIdentifier(a[1..][k - 1], b[1..][k - 1]) < 0;
    }
  }

  /** The precedence of versions: by core, then a prerelease before its release, then by prerelease. It is a total order:
      equal only to itself, and never both before and after. */
  lemma Precedence(v: Version, w: Version)
    ensures Compare(v, w) < 0 <==>
      || CompareCore(v, w) < 0
      || (CompareCore(v, w) == 0 && v.pre != [] && (w.pre == [] || CompareIdentifiers(v.pre, w.pre) < 0))
    ensures Compare(v, w) == 0 <==> v == w
    ensures Compare(v, w) == -Compare(w, v)
  {
    hide CompareIdentifiers, CompareCore;
    CoreOrder(v, w);
    IdentifiersOrder(v.pre, w.pre);
  }

  // ----- Comparators

  const MAX_U64: nat := 0xffff_ffff_ffff_ffff

  datatype Op = Exact | Greater | GreaterEq | Less | LessEq | Tilde | Caret | WildcardOp

  /** The version part of a term: a bare wildcard, or numbers of which the last may be missing. */
  datatype Partial = AnyVersion | Numbers(given: seq<nat>, pre: seq<Identifier>) {
    /** What the comparator parser yields: one to three 64-bit numbers, a prerelease only after three. */
    predicate Valid() {
      Numbers? ==> 1 <= |given| <= 3 && (|given| < 3 ==> pre == []) && forall n <- given :: n <= MAX_U64
    }
  }

  datatype Term = Term(op: Op, version: Partial)

  /** A comparator with a full version, as handed to the range matcher. */
  datatype Bound = Bound(op: Op, version: Version)

  predicate Satisfies(v: Version, b: Bound) {
    match b.op
    case Exact => Compare(v, b.version) == 0
    case Greater => Compare(v, b.version) > 0
    case GreaterEq => Compare(v, b.version) >= 0
    case Less => Compare(v, b.version) < 0
    case LessEq => Compare(v, b.version) <= 0
    case _ => false
  }

  predicate SatisfiesAll(v: Version, bounds: seq<Bound>) {
    forall i | 0 <= i < |bounds| :: Satisfies(v, bounds[i])
  }

  function Part(given: seq<nat>, i: nat): nat { if i < |given| then given[i] else 0 }

  function Low(p: Partial): Version
    requires p.Numbers?
  {
    Version(Part(p.given, 0), Part(p.given, 1), Part(p.given, 2), p.pre)
  }

  /** Adds one to the part at `position` and clears the parts after it; fails on overflow. */
  function Upper(given: seq<nat>, position: nat): Option<Version>
    requires position < 3
  {
    if Part(given, position) >= MAX_U64 then None
    else if position == 0 then Some(Version(Part(given, 0) + 1, 0, 0, []))
    else if position == 1 then Some(Version(Part(given, 0), Part(given, 1) + 1, 0, []))
    else Some(Version(Part(given, 0), Part(given, 1), Part(given, 2) + 1, []))
  }

  function Zeroed(v: Version): Version { v.(pre := [Numeric(0)]) }

  function Below(upper: Option<Version>): Option<seq<Bound>> {
    match upper
    case None => None
    case Some(u) => Some([Bound(Less, Zeroed(u))])
  }

  function Between(low: Version, upper: Option<Version>): Option<seq<Bound>> {
    match upper
    case None => None
    case Some(u) => Some([Bound(GreaterEq, low), Bound(Less, Zeroed(u))])
  }

  function NpmComparators(t: Term): Option<seq<Bound>>
    requires t.version.Valid()
  {
    match t.version
    case AnyVersion =>
      Some(if t.op == Greater || t.op == Less then [Bound(Less, Version(0, 0, 0, [Numeric(0)]))] else [])
    case Numbers(given, pre) =>
      var low := Low(t.version);
      var partial := |given| < 3;
      match t.op
      case Caret =>
        var position := if given[0] != 0 || |given| == 1 then 0 else if given[1] != 0 || |given| == 2 then 1 else 2;
        Between(low, Upper(given, position))
      case Tilde => Between(low, Upper(given, if |given| == 1 then 0 else 1))
      case Exact => if partial then Between(low, Upper(given, |given| - 1)) else Some([Bound(Exact, low)])
      case WildcardOp => if partial then Between(low, Upper(given, |given| - 1)) else None
      case Greater =>
        if partial then
          match Upper(given, |given| - 1)
          case None => None
          case Some(u) => Some([Bound(GreaterEq, u)])
        else Some([Bound(Greater, low)])
      case LessEq => if partial then Below(Upper(given, |given| - 1)) else Some([Bound(LessEq, low)])
      case Less => Some([Bound(Less, if partial then Zeroed(low) else low)])
      case GreaterEq => Some([Bound(GreaterEq, low)])
  }

  // ----- What npm means by a term, without any bumping of numbers

  function Core(v: Version): seq<nat> { [v.major, v.minor, v.patch] }

  /** Lexicographic order on number sequences of one length. */
  predicate LexLess(a: seq<nat>, b: seq<nat>)
    requires |a| == |b|
  {
    a != [] && (a[0] < b[0] || (a[0] == b[0] && LexLess(a[1..], b[1..])))
  }

  /** The parts a caret keeps: through the first nonzero given part, or all given parts. */
  function CaretLength(given: seq<nat>): (n: nat)
    requires given != []
    ensures 1 <= n <= |given|
  {
    if given[0] != 0 || |given| == 1 then 1 else 1 + CaretLength(given[1..])
  }

  function Min(a: nat, b: nat): nat { if a < b then a else b }

  /** `v` is a prerelease of the first release whose leading parts exceed `given`. */
  predicate PrereleaseOfNext(v: Version, given: seq<nat>)
    requires 1 <= |given| <= 3
  {
    v.pre != [] && Core(v) == given[..|given| - 1] + [given[|given| - 1] + 1] + seq(3 - |given|, _ => 0)
  }

  ghost predicate Means(t: Term, v: Version)
    requires t.version.Valid()
  {
    match t.version
    case AnyVersion => t.op != Greater && t.op != Less
    case Numbers(given, pre) =>
      var (low, n) := (Low(t.version), |given|);
      var leading := Core(v)[..n];
      match t.op
      case Caret => Compare(v, low) >= 0 && Core(v)[..CaretLength(given)] == given[..CaretLength(given)]
      case Tilde => Compare(v, low) >= 0 && Core(v)[..Min(n, 2)] == given[..Min(n, 2)]
      case Exact => if n < 3 then Compare(v, low) >= 0 && leading == given else Compare(v, low) == 0
      case WildcardOp => Compare(v, low) >= 0 && leading == given
      case Greater => if n < 3 then LexLess(given, leading) && !PrereleaseOfNext(v, given) else Compare(v, low) > 0
      case LessEq => if n < 3 then !LexLess(given, leading) else Compare(v, low) <= 0
      case Less => if n < 3 then LexLess(leading, given) else Compare(v, low) < 0
      case GreaterEq => Compare(v, low) >= 0
  }

  /** The part whose bump the expansion needs, if any. */
  function BumpedPart(t: Term): Option<nat>
    requires t.version.Valid()
  {
    match t.version
    case AnyVersion => None
    case Numbers(given, _) =>
      match t.op
      case Caret => Some(CaretLength(given) - 1)
      case Tilde => Some(Min(|given|, 2) - 1)
      case Exact => if |given| < 3 then Some(|given| - 1) else None
      case WildcardOp => if |given| < 3 then Some(|given| - 1) else None
      case Greater => if |given| < 3 then Some(|given| - 1) else None
      case LessEq => if |given| < 3 then Some(|given| - 1) else None
      case _ => None
  }

  /** Below the bumped version and its prereleases, above the low version: the same leading parts. */
  lemma BetweenKeepsLeadingParts(p: Partial, k: nat, v: Version)
    requires p.Valid() && p.Numbers? && 1 <= k <= |p.given| && Part(p.given, k - 1) < MAX_U64
    ensures var bounds := Between(Low(p), Upper(p.given, k - 1));
            bounds.Some? && (SatisfiesAll(v, bounds.value) <==>
                             Compare(v, Low(p)) >= 0 && Core(v)[..k] == p.given[..k])
  {
    var upper := Upper(p.given, k - 1).value;
    ZeroIsLeastPrerelease(v, Zeroed(upper));
    var bounds := Between(Low(p), Some(upper)).value;
    assert SatisfiesAll(v, bounds) <==> Satisfies(v, bounds[0]) && Satisfies(v, bounds[1]);
    assert p.given[..k][0] == Part(p.given, 0);
    if k > 1 { assert p.given[..k][1] == Part(p.given, 1); }
    if k > 2 { assert p.given[..k][2] == Part(p.given, 2); }
  }

  lemma CaretPosition(given: seq<nat>)
    requires 1 <= |given| <= 3
    ensures CaretLength(given) - 1
            == if given[0] != 0 || |given| == 1 then 0 else if given[1] != 0 || |given| == 2 then 1 else 2
  {
    if given[0] == 0 && |given| > 1 {
      assert CaretLength(given[1..]) == if given[1] != 0 || |given| == 2 then 1 else 1 + CaretLength(given[1..][1..]);
    }
  }

  /** Comparing the leading parts is comparing with the partial version filled with zeros, or with
      the bumped one. */
  lemma LeadingPartsOrder(p: Partial, v: Version)
    requires p.Valid() && p.Numbers? && |p.given| < 3
    ensures var leading := Core(v)[..|p.given|];
            && (LexLess(leading, p.given) <==> CompareCore(v, Low(p)) < 0)
            && (Part(p.given, |p.given| - 1) < MAX_U64 ==>
                  var upper := Upper(p.given, |p.given| - 1).value;
                  && (LexLess(p.given, leading) <==> CompareCore(v, upper) >= 0)
                  && (PrereleaseOfNext(v, p.given) <==> CompareCore(v, upper) == 0 && v.pre != []))
  {
    var leading := Core(v)[..|p.given|];
    if |p.given| == 2 {
      assert leading[1..] == [v.minor] && p.given[1..] == [p.given[1]];
      assert LexLess([v.minor], [p.given[1]]) <==> v.minor < p.given[1];
      assert LexLess([p.given[1]], [v.minor]) <==> p.given[1] < v.minor;
      assert p.given[..1] + [p.given[1] + 1] + seq(1, _ => 0) == [p.given[0], p.given[1] + 1, 0];
    } else {
      assert p.given[..0] + [p.given[0] + 1] + seq(2, _ => 0) == [p.given[0] + 1, 0, 0];
    }
  }

  /** The expansion keeps the meaning: the emitted comparators hold of exactly the versions that npm
      puts in the interval of the term. */
  lemma ExpansionKeepsMeaning(t: Term, v: Version)
    requires t.version.Valid() && NpmComparators(t).Some?
    ensures SatisfiesAll(v, NpmComparators(t).value) <==> Means(t, v)
  {
    var bounds := NpmComparators(t).value;
    match t.version
    case AnyVersion =>
      if t.op == Greater || t.op == Less {
        ZeroIsLeastPrerelease(v, bounds[0].version);
        assert !Satisfies(v, bounds[0]);
      }
    case Numbers(given, _) =>
      var n := |given|;
      if t.op == Caret {
        CaretPosition(given);
        BetweenKeepsLeadingParts(t.version, CaretLength(given), v);
      } else if t.op == Tilde {
        BetweenKeepsLeadingParts(t.version, Min(n, 2), v);
      } else if n < 3 && (t.op == Exact || t.op == WildcardOp) {
        BetweenKeepsLeadingParts(t.version, n, v);
        assert Core(v)[..n] == given[..n] <==> Core(v)[..n] == given;
      } else {
        assert SatisfiesAll(v, bounds) <==> Satisfies(v, bounds[0]);
        if n < 3 {
          LeadingPartsOrder(t.version, v);
          ZeroIsLeastPrerelease(v, bounds[0].version.(pre := [Numeric(0)]));
        }
      }
  }

  /** The expansion fails exactly when the part it must bump is the largest 64-bit number, or on a
      wildcard operator without a missing part. */
  lemma ExpansionFailsOnOverflow(t: Term)
    requires t.version.Valid()
    ensures NpmComparators(t).None? <==>
            || (BumpedPart(t).Some? && t.version.given[BumpedPart(t).value] == MAX_U64)
            || (t.version.Numbers? && t.op == WildcardOp && |t.version.given| == 3)
  {
    if t.version.Numbers? {
      CaretPosition(t.version.given);
      forall i | 0 <= i < |t.version.given| ensures t.version.given[i] <= MAX_U64 {
        assert t.version.given[i] in t.version.given;
      }
    }
  }

  // ----- Whole ranges: alternatives of terms or of two hyphenated versions

  datatype Alternative = Terms(terms: seq<Term>) | Hyphen(from: Partial, to: Partial) {
    predicate Valid() {
      match this
      case Terms(terms) => forall t <- terms :: t.version.Valid()
      case Hyphen(from, to) => from.Valid() && to.Valid()
    }

    /** The terms that must all hold; a hyphen is a pair of inclusive limits. */
    function AllTerms(): (terms: seq<Term>)
      requires Valid()
      ensures forall t <- terms :: t.version.Valid()
    {
      match this
      case Terms(terms) => terms
      case Hyphen(from, to) => [Term(GreaterEq, from), Term(LessEq, to)]
    }
  }

  function Expand(terms: seq<Term>): Option<seq<Bound>>
    requires forall t <- terms :: t.version.Valid()
  {
    if terms == [] then Some([])
    else
      match (Expand(terms[..|terms| - 1]), NpmComparators(terms[|terms| - 1]))
      case (Some(bounds), Some(more)) => Some(bounds + more)
      case _ => None
  }

  lemma {:induction false} ExpandKeepsMeaning(terms: seq<Term>, v: Version)
    requires forall t <- terms :: t.version.Valid()
    ensures Expand(terms).Some? <==> forall t <- terms :: NpmComparators(t).Some?
    ensures Expand(terms).Some? ==> (SatisfiesAll(v, Expand(terms).value) <==> forall t <- terms :: Means(t, v))
  {
    if terms != [] {
      var (init, last) := (terms[..|terms| - 1], terms[|terms| - 1]);
      assert terms == init + [last];
      ExpandKeepsMeaning(init, v);
      if Expand(init).Some? && NpmComparators(last).Some? {
        ExpansionKeepsMeaning(last, v);
        SatisfiesAllAppend(v, Expand(init).value, NpmComparators(last).value);
      }
    }
  }

  lemma SatisfiesAllAppend(v: Version, b1: seq<Bound>, b2: seq<Bound>)
    ensures SatisfiesAll(v, b1 + b2) <==> SatisfiesAll(v, b1) && SatisfiesAll(v, b2)
  {
    if SatisfiesAll(v, b1 + b2) {
      forall i | 0 <= i < |b1| ensures Satisfies(v, b1[i]) { assert (b1 + b2)[i] == b1[i]; }
      forall i | 0 <= i < |b2| ensures Satisfies(v, b2[i]) { assert (b1 + b2)[|b1| + i] == b2[i]; }
    }
  }

  /** The version lies in the alternative. Between hyphens both ends count: not below the first, and not above the second,
      where a missing part of the second stands for every number. */
  ghost predicate LiesIn(a: Alternative, v: Version)
    requires a.Valid()
  {
    match a
    case Terms(terms) => forall t <- terms :: Means(t, v)
    case Hyphen(from, to) =>
      && (from.Numbers? ==> Compare(v, Low(from)) >= 0)
      && (to.Numbers? ==> if |to.given| == 3 then Compare(v, Low(to)) <= 0 else !LexLess(to.given, Core(v)[..|to.given|]))
  }

  /** It lies there and the matcher's prerelease rule admits it. */
  ghost predicate InAlternative(a: Alternative, v: Version, admits: (seq<Bound>, Version) -> bool)
    requires a.Valid()
  {
    LiesIn(a, v) && Expand(a.AllTerms()).Some? && admits(Expand(a.AllTerms()).value, v)
  }

  /** The alternative can be expanded: it has a term and every term can be, or the last number given for the second end
      of a hyphen is not the largest there is, unless all three are given. */
  ghost predicate Readable(a: Alternative)
    requires a.Valid()
  {
    match a
    case Terms(terms) => terms != [] && forall t <- terms :: NpmComparators(t).Some?
    case Hyphen(_, to) => to.Numbers? && |to.given| < 3 ==> to.given[|to.given| - 1] < MAX_U64
  }

  lemma HyphenMeans(a: Alternative, v: Version)
    requires a.Valid()
    ensures LiesIn(a, v) <==> forall t <- a.AllTerms() :: Means(t, v)
    ensures Readable(a) <==> a.AllTerms() != [] && forall t <- a.AllTerms() :: NpmComparators(t).Some?
  {
    if a.Hyphen? {
      var (low, high) := (Term(GreaterEq, a.from), Term(LessEq, a.to));
      assert a.AllTerms() == [low, high];
      assert (forall t <- a.AllTerms() :: Means(t, v)) <==> Means(low, v) && Means(high, v);
      assert (forall t <- a.AllTerms() :: NpmComparators(t).Some?) <==> NpmComparators(low).Some? && NpmComparators(high).Some?;
      ExpansionFailsOnOverflow(low);
      ExpansionFailsOnOverflow(high);
      if a.to.Numbers? { assert a.to.given[|a.to.given| - 1] in a.to.given; }
      hide NpmComparators;
    }
  }

  /** The comparators of one alternative, term by term. */
  method ExpandTerms(terms: seq<Term>) returns (r: Option<seq<Bound>>)
    requires forall t <- terms :: t.version.Valid()
    ensures r == Expand(terms)
  {
    hide NpmComparators;
    var comparators := [];
    for j := 0 to |terms|
      invariant Expand(terms[..j]) == Some(comparators)
    {
      assert terms[..j + 1][..j] == terms[..j];
      var more := NpmComparators(terms[j]);
      if more.None? {
        ExpandStaysNone(terms, j);
        return None;
      }
      comparators := comparators + more.value;
    }
    assert terms[..|terms|] == terms;
    return Some(comparators);
  }

  lemma {:induction false} ExpandStaysNone(terms: seq<Term>, j: nat)
    requires (forall t <- terms :: t.version.Valid()) && j < |terms| && NpmComparators(terms[j]).None?
    ensures Expand(terms).None?
  {
    hide NpmComparators;
    if j < |terms| - 1 { ExpandStaysNone(terms[..|terms| - 1], j); }
  }

  lemma AlternativeDecided(a: Alternative, v: Version, admits: (seq<Bound>, Version) -> bool)
    requires a.Valid()
    ensures Readable(a) <==> a.AllTerms() != [] && Expand(a.AllTerms()).Some?
    ensures Expand(a.AllTerms()).Some? ==>
      (InAlternative(a, v, admits) <==> SatisfiesAll(v, Expand(a.AllTerms()).value) && admits(Expand(a.AllTerms()).value, v))
  {
    hide NpmComparators, Means, SatisfiesAll, Expand, LiesIn, Readable;
    HyphenMeans(a, v);
    ExpandKeepsMeaning(a.AllTerms(), v);
  }

  /** Decides a range: an error if any alternative is empty or cannot be expanded, otherwise whether
      some alternative holds. `admits` is the prerelease rule of the library's range matcher. */
  method NpmRangeMatches(range: seq<Alternative>, v: Version, admits: (seq<Bound>, Version) -> bool)
    returns (r: Option<bool>)
    requires forall a <- range :: a.Valid()
    ensures r.None? <==> exists a <- range :: !Readable(a)
    ensures r.Some? ==> (r.value <==> exists a <- range :: InAlternative(a, v, admits))
  {
    hide Expand, Readable, InAlternative, SatisfiesAll, Alternative.AllTerms;
    var matched := false;
    for i := 0 to |range|
      invariant forall k | 0 <= k < i :: Readable(range[k])
      invariant matched <==> exists k | 0 <= k < i :: InAlternative(range[k], v, admits)
    {
      var alternative := range[i];
      AlternativeDecided(alternative, v, admits);
      var terms := alternative.AllTerms();
      if terms == [] { return None; }
      var comparators := ExpandTerms(terms);
      if comparators.None? { return None; }
      matched := matched || (SatisfiesAll(v, comparators.value) && admits(comparators.value, v));
    }
    r := Some(matched);
  }
}
