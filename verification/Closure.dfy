/** The dependency closure engine of the installer: edges labelled required or optional, the worklist
    that computes what is reachable, and the platform-pruning checks on top. */
module Closure {
  import opened Wrappers
  import opened Locators

  datatype Json = Null | Bool(flag: bool) | Number | Text(text: string) | Array | Object(fields: map<string, Json>)

  type Record = map<string, Json>

  const DEPENDENCIES := "dependencies"
  const OPTIONAL := "optionalDependencies"
  const PEER := "peerDependencies"
  const PEER_META := "peerDependenciesMeta"
  const EDGE_FIELDS: seq<string> := [DEPENDENCIES, OPTIONAL, PEER]

  /** Decides whether a version lies in a range; None when either cannot be read. */
  type Matcher = (string, string) -> Option<bool>

  // ----- Reading a record

  /** A field that holds a map: None for a non-object, Some(None) for an absent or empty one. */
  function DependencyMap(record: Record, field: string): Option<Option<map<string, Json>>> {
    if field !in record then Some(None)
    else
      match record[field]
      case Object(fields) => Some(if fields == map[] then None else Some(fields))
      case _ => None
  }

  function Entries(record: Record, field: string): map<string, Json> {
    match DependencyMap(record, field)
    case Some(Some(fields)) => fields
    case _ => map[]
  }

  function Get(value: Option<Json>, key: string): Option<Json> {
    match value
    case Some(Object(fields)) => if key in fields then Some(fields[key]) else None
    case _ => None
  }

  predicate OptionalPeer(record: Record, name: string) {
    var meta := if PEER_META in record then Some(record[PEER_META]) else None;
    Get(Get(meta, name), "optional") == Some(Bool(true))
  }

  function TextField(record: Record, key: string): Option<string> {
    if key in record && record[key].Text? then Some(record[key].text) else None
  }

  // ----- What the edges of a record are

  function ResolveName(locator: string, name: string, records: map<string, Record>): (r: Option<string>)
    ensures r.Some? ==> r.value in records
  {
    Nearest(Bases(locator), name, records.Keys)
  }

  /** optionalDependencies overrides the same name in dependencies. */
  predicate Overridden(record: Record, field: string, name: string) {
    field == DEPENDENCIES && name in Entries(record, OPTIONAL)
  }

  predicate IsRequired(record: Record, field: string, name: string) {
    field != OPTIONAL && !(field == PEER && OptionalPeer(record, name))
  }

  predicate EntryOk(locator: string, record: Record, records: map<string, Record>, matches: Matcher,
                    field: string, name: string)
    requires name in Entries(record, field)
  {
    && ValidPackageName(name)
    && (!Overridden(record, field, name) ==>
          match ResolveName(locator, name, records)
          case None => field == PEER && OptionalPeer(record, name)
          case Some(target) =>
            var version := TextField(records[target], "version");
            var requirement := Entries(record, field)[name];
            version.Some? && requirement.Text? && matches(requirement.text, version.value) == Some(true))
  }

  ghost predicate FieldOk(locator: string, record: Record, records: map<string, Record>, matches: Matcher,
                          field: string)
  {
    DependencyMap(record, field).Some?
    && forall name | name in Entries(record, field) :: EntryOk(locator, record, records, matches, field, name)
  }

  /** Every dependency field is a map whose entries are named well and resolve to a matching version. */
  ghost predicate RecordOk(locator: string, record: Record, records: map<string, Record>, matches: Matcher) {
    forall field <- EDGE_FIELDS :: FieldOk(locator, record, records, matches, field)
  }

  ghost predicate FieldEdge(locator: string, record: Record, records: map<string, Record>, field: string,
                            name: string, edge: (string, bool))
  {
    && name in Entries(record, field) && !Overridden(record, field, name)
    && ResolveName(locator, name, records) == Some(edge.0)
    && edge.1 == IsRequired(record, field, name)
  }

  ghost function Edges(locator: string, record: Record, records: map<string, Record>): set<(string, bool)> {
    set target, required, field, name
      | field in EDGE_FIELDS && target in records && required in {false, true} && name in Entries(record, field)
        && FieldEdge(locator, record, records, field, name, (target, required))
      :: (target, required)
  }

  // ----- The same on the fields of the document

  ghost predicate Declares(record: Record, field: string, name: string) {
    field in record && record[field].Object? && name in record[field].fields
  }

  /** The peer's metadata hold `optional` as the Boolean true. */
  ghost predicate SaysOptional(record: Record, peer: string) {
    && Declares(record, "peerDependenciesMeta", peer)
    && var meta := record["peerDependenciesMeta"].fields[peer];
       meta.Object? && "optional" in meta.fields && meta.fields["optional"] == Bool(true)
  }

  /** The nearest enclosing package of that name exists, and its version satisfies the requirement. */
  ghost predicate Satisfied(locator: string, record: Record, records: map<string, Record>, matches: Matcher, field: string, name: string)
    requires Declares(record, field, name)
  {
    var target := ResolveName(locator, name, records);
    && target.Some? && "version" in records[target.value] && records[target.value]["version"].Text?
    && record[field].fields[name].Text?
    && matches(record[field].fields[name].text, records[target.value]["version"].text) == Some(true)
  }

  ghost predicate HoldsMaps(record: Record) {
    && ("dependencies" in record ==> record["dependencies"].Object?)
    && ("optionalDependencies" in record ==> record["optionalDependencies"].Object?)
    && ("peerDependencies" in record ==> record["peerDependencies"].Object?)
  }

  lemma EntriesMean(record: Record, field: string, name: string)
    ensures name in Entries(record, field) <==> Declares(record, field, name)
    ensures Declares(record, field, name) ==> Entries(record, field)[name] == record[field].fields[name]
    ensures DependencyMap(record, field).Some? <==> (field in record ==> record[field].Object?)
  {}

  lemma OptionalPeerMeans(record: Record, peer: string)
    ensures OptionalPeer(record, peer) <==> SaysOptional(record, peer)
  {}

  /** An acceptable entry: a dependency that is also an optional one is passed over, an optional peer may be missing,
      and everything else must be there in a matching version. */
  ghost predicate Acceptable(locator: string, record: Record, records: map<string, Record>, matches: Matcher, field: string, name: string)
    requires Declares(record, field, name)
  {
    ValidPackageName(name) && (
      || (field == "dependencies" && Declares(record, "optionalDependencies", name))
      || (field == "peerDependencies" && SaysOptional(record, name) && ResolveName(locator, name, records).None?)
      || Satisfied(locator, record, records, matches, field, name))
  }

  ghost predicate AllAcceptable(locator: string, record: Record, records: map<string, Record>, matches: Matcher, field: string) {
    && (field in record ==> record[field].Object?)
    && (forall name | Declares(record, field, name) :: Acceptable(locator, record, records, matches, field, name))
  }

  /** A required edge comes from a dependency that is not an optional one too or from a peer that is not marked optional,
      an optional edge from an optional dependency or from a peer marked so. */
  ghost predicate DeclaresEdge(record: Record, name: string, required: bool) {
    || (Declares(record, "dependencies", name) && !Declares(record, "optionalDependencies", name) && required)
    || (Declares(record, "optionalDependencies", name) && !required)
    || (Declares(record, "peerDependencies", name) && required == !SaysOptional(record, name))
  }

  lemma EntryMeans(locator: string, record: Record, records: map<string, Record>, matches: Matcher, field: string, name: string)
    requires field in EDGE_FIELDS && Declares(record, field, name) && name in Entries(record, field)
    ensures EntryOk(locator, record, records, matches, field, name) <==> Acceptable(locator, record, records, matches, field, name)
  {
    hide ResolveName, ValidPackageName, OptionalPeer, SaysOptional;
    EntriesMean(record, field, name);
    EntriesMean(record, "optionalDependencies", name);
    OptionalPeerMeans(record, name);
  }

  lemma FieldMeans(locator: string, record: Record, records: map<string, Record>, matches: Matcher, field: string)
    requires field in EDGE_FIELDS
    ensures FieldOk(locator, record, records, matches, field) <==> AllAcceptable(locator, record, records, matches, field)
  {
    hide EntryOk, Acceptable, DependencyMap, Entries, Declares;
    EntriesMean(record, field, "");
    forall name
      ensures name in Entries(record, field) <==> Declares(record, field, name)
      ensures Declares(record, field, name) ==>
        (EntryOk(locator, record, records, matches, field, name) <==> Acceptable(locator, record, records, matches, field, name))
    {
      EntriesMean(record, field, name);
      if Declares(record, field, name) { EntryMeans(locator, record, records, matches, field, name); }
    }
  }

  /** When the dependencies of a record are accepted. */
  lemma RecordOkMeans(locator: string, record: Record, records: map<string, Record>, matches: Matcher)
    ensures RecordOk(locator, record, records, matches) <==> (
      && AllAcceptable(locator, record, records, matches, "dependencies")
      && AllAcceptable(locator, record, records, matches, "optionalDependencies")
      && AllAcceptable(locator, record, records, matches, "peerDependencies"))
  {
    hide FieldOk, AllAcceptable;
    assert EDGE_FIELDS == ["dependencies", "optionalDependencies", "peerDependencies"];
    FieldMeans(locator, record, records, matches, "dependencies");
    FieldMeans(locator, record, records, matches, "optionalDependencies");
    FieldMeans(locator, record, records, matches, "peerDependencies");
  }

  lemma FieldEdgeMeans(locator: string, record: Record, records: map<string, Record>, name: string, edge: (string, bool))
    ensures (exists field :: field in EDGE_FIELDS && FieldEdge(locator, record, records, field, name, edge))
      <==> ResolveName(locator, name, records) == Some(edge.0) && DeclaresEdge(record, name, edge.1)
  {
    hide ResolveName, SaysOptional, DependencyMap, Entries, OptionalPeer, Declares;
    assert EDGE_FIELDS == ["dependencies", "optionalDependencies", "peerDependencies"];
    EntriesMean(record, "dependencies", name);
    EntriesMean(record, "optionalDependencies", name);
    EntriesMean(record, "peerDependencies", name);
    OptionalPeerMeans(record, name);
    ghost var (a, b, c) := ("dependencies", "optionalDependencies", "peerDependencies");
    assert a in EDGE_FIELDS && b in EDGE_FIELDS && c in EDGE_FIELDS;
    assert forall field <- EDGE_FIELDS :: field == a || field == b || field == c;
    assert FieldEdge(locator, record, records, a, name, edge) || FieldEdge(locator, record, records, b, name, edge)
        || FieldEdge(locator, record, records, c, name, edge)
        <==> ResolveName(locator, name, records) == Some(edge.0) && DeclaresEdge(record, name, edge.1);
  }

  /** Which edges a record has. */
  lemma EdgesMean(locator: string, record: Record, records: map<string, Record>, target: string, required: bool)
    ensures (target, required) in Edges(locator, record, records) <==>
      exists name :: ResolveName(locator, name, records) == Some(target) && DeclaresEdge(record, name, required)
  {
    hide ResolveName, Entries, DeclaresEdge, IsRequired, Overridden;
    forall name
      ensures (exists field :: field in EDGE_FIELDS && FieldEdge(locator, record, records, field, name, (target, required)))
        <==> ResolveName(locator, name, records) == Some(target) && DeclaresEdge(record, name, required)
    {
      FieldEdgeMeans(locator, record, records, name, (target, required));
    }
    if (target, required) in Edges(locator, record, records) {
      var field, name :| field in EDGE_FIELDS && FieldEdge(locator, record, records, field, name, (target, required));
      assert ResolveName(locator, name, records) == Some(target) && DeclaresEdge(record, name, required);
    }
  }

  method DependencyEdges(locator: string, record: Record, records: map<string, Record>, matches: Matcher)
    returns (r: Option<seq<(string, bool)>>)
    ensures r.Some? <==> RecordOk(locator, record, records, matches)
    ensures r.Some? ==> forall e :: e in r.value <==> e in Edges(locator, record, records)
    ensures r.Some? <==>
      && AllAcceptable(locator, record, records, matches, "dependencies")
      && AllAcceptable(locator, record, records, matches, "optionalDependencies")
      && AllAcceptable(locator, record, records, matches, "peerDependencies")
    ensures r.Some? ==> forall target, required :: (target, required) in r.value <==>
      exists name :: ResolveName(locator, name, records) == Some(target) && DeclaresEdge(record, name, required)
  {
    hide Nearest, Bases, ValidPackageName, OptionalPeer, AllAcceptable, DeclaresEdge;
    RecordOkMeans(locator, record, records, matches);
    forall target, required
      ensures (target, required) in Edges(locator, record, records) <==>
        exists name :: ResolveName(locator, name, records) == Some(target) && DeclaresEdge(record, name, required)
    {
      EdgesMean(locator, record, records, target, required);
    }
    var edges: seq<(string, bool)> := [];
    var optional := DependencyMap(record, OPTIONAL);
    if optional.None? {
      assert OPTIONAL in EDGE_FIELDS && !FieldOk(locator, record, records, matches, OPTIONAL);
      return None;
    }
    for i := 0 to |EDGE_FIELDS|
      invariant forall f <- EDGE_FIELDS[..i] :: FieldOk(locator, record, records, matches, f)
      invariant forall e :: e in edges <==>
                  exists f, n :: f in EDGE_FIELDS[..i] && FieldEdge(locator, record, records, f, n, e)
    {
      var field := EDGE_FIELDS[i];
      var deps := DependencyMap(record, field);
      assert field in EDGE_FIELDS;
      if deps.None? {
        assert !FieldOk(locator, record, records, matches, field);
        return None;
      }
      ghost var before := edges;
      if deps.value.Some? {
        var todo := deps.value.value.Keys;
        while todo != {}
          invariant todo <= Entries(record, field).Keys
          invariant forall n | n in Entries(record, field).Keys - todo ::
                      EntryOk(locator, record, records, matches, field, n)
          invariant forall e :: e in edges <==>
                      || e in before
                      || exists n :: n in Entries(record, field).Keys - todo && FieldEdge(locator, record, records, field, n, e)
        {
          var name :| name in todo;
          ghost var (done, seen) := (Entries(record, field).Keys - todo, edges);
          todo := todo - {name};
          assert Entries(record, field).Keys - todo == done + {name};
          var requirement := deps.value.value[name];
          if !ValidPackageName(name) { return None; }
          if !(field == DEPENDENCIES && name in Entries(record, OPTIONAL)) {
            var optionalPeer := field == PEER && OptionalPeer(record, name);
            var resolved := Resolve(locator, name, records.Keys);
            if resolved.None? {
              if !optionalPeer { return None; }
            } else {
              var version := TextField(records[resolved.value], "version");
              if version.None? || !requirement.Text? { return None; }
              if matches(requirement.text, version.value) != Some(true) { return None; }
              var edge := (resolved.value, field != OPTIONAL && !optionalPeer);
              edges := edges + [edge];
              assert FieldEdge(locator, record, records, field, name, edge);
            }
          }
        }
        assert Entries(record, field).Keys - todo == Entries(record, field).Keys;
      }
      assert EDGE_FIELDS[..i + 1] == EDGE_FIELDS[..i] + [field];
    }
    assert EDGE_FIELDS[..|EDGE_FIELDS|] == EDGE_FIELDS;
    r := Some(edges);
  }

  // ----- Reachability: the least fixpoint of the edges

  type Graph = map<string, set<(string, bool)>>

  ghost function GraphOf(records: map<string, Record>): Graph {
    map locator | locator in records :: Edges(locator, records[locator], records)
  }

  ghost predicate Step(g: Graph, a: string, b: string, required: bool) {
    a in g && ((b, true) in g[a] || (!required && (b, false) in g[a]))
  }

  ghost predicate IsPath(g: Graph, path: seq<string>, required: bool) {
    && path != [] && path[0] == ""
    && forall i | 0 <= i < |path| - 1 :: Step(g, path[i], path[i + 1], required)
  }

  /** Some path leads from the root to the locator; with `required`, one of required edges only. */
  ghost predicate Reaches(g: Graph, locator: string, required: bool) {
    exists path :: IsPath(g, path, required) && path[|path| - 1] == locator
  }

  lemma RootIsReached(g: Graph, required: bool)
    ensures Reaches(g, "", required)
  {
    assert IsPath(g, [""], required);
  }

  lemma ReachesStep(g: Graph, a: string, b: string, required: bool)
    requires Reaches(g, a, required) && Step(g, a, b, required)
    ensures Reaches(g, b, required)
  {
    var path :| IsPath(g, path, required) && path[|path| - 1] == a;
    assert IsPath(g, path + [b], required);
  }

  type Reachability = map<string, bool>

  /** The node's targets are reached, and the required targets of a required node are required. */
  ghost predicate Closed(g: Graph, reach: Reachability, a: string, required: bool) {
    && a in g
    && forall t, r | (t, r) in g[a] :: t in reach && (required && r ==> reach[t])
  }

  /** A closed table holds everything that is reachable. */
  lemma {:induction false} ClosedTableIsComplete(g: Graph, reach: Reachability, path: seq<string>, required: bool)
    requires "" in reach && reach[""]
    requires forall a | a in reach :: Closed(g, reach, a, reach[a])
    requires IsPath(g, path, required)
    ensures path[|path| - 1] in reach && (required ==> reach[path[|path| - 1]])
    decreases |path|
  {
    if |path| > 1 {
      var init := path[..|path| - 1];
      assert IsPath(g, init, required);
      ClosedTableIsComplete(g, reach, init, required);
      assert Step(g, path[|path| - 2], path[|path| - 1], required);
    }
  }

  /** The records that required paths lead to. */
  ghost function RequiredSet(records: map<string, Record>): set<string> {
    set locator | locator in records && Reaches(GraphOf(records), locator, true)
  }

  /** The root is recorded, every record is well formed, and every record is reachable. */
  ghost predicate ClosureOk(records: map<string, Record>, matches: Matcher) {
    && "" in records
    && (forall l | l in records :: RecordOk(l, records[l], records, matches))
    && (forall l | l in records :: Reaches(GraphOf(records), l, false))
  }

  lemma RequiredEdgeResolves(locator: string, records: map<string, Record>, matches: Matcher, name: string)
    requires locator in records && RecordOk(locator, records[locator], records, matches)
    requires DeclaresEdge(records[locator], name, true)
    ensures ResolveName(locator, name, records).Some?
    ensures (ResolveName(locator, name, records).value, true) in Edges(locator, records[locator], records)
  {
    hide ResolveName, ValidPackageName, Edges, RecordOk, Declares, SaysOptional;
    RecordOkMeans(locator, records[locator], records, matches);
    var record := records[locator];
    if Declares(record, "dependencies", name) && !Declares(record, "optionalDependencies", name) {
      assert Acceptable(locator, record, records, matches, "dependencies", name);
    } else {
      assert Acceptable(locator, record, records, matches, "peerDependencies", name);
    }
    EdgesMean(locator, record, records, ResolveName(locator, name, records).value, true);
  }

  /** What a required record requires resolves, and is required; the root is required. */
  lemma RequiredSetIsClosed(records: map<string, Record>, matches: Matcher)
    requires ClosureOk(records, matches)
    ensures "" in RequiredSet(records)
    ensures forall a, name | a in RequiredSet(records) && DeclaresEdge(records[a], name, true) ::
      ResolveName(a, name, records).Some? && ResolveName(a, name, records).value in RequiredSet(records)
  {
    hide RecordOk, Reaches, DeclaresEdge, ResolveName, Edges;
    var g := GraphOf(records);
    RootIsReached(g, true);
    forall a, name | a in RequiredSet(records) && DeclaresEdge(records[a], name, true)
      ensures ResolveName(a, name, records).Some? && ResolveName(a, name, records).value in RequiredSet(records)
    {
      RequiredEdgeResolves(a, records, matches, name);
      var target := ResolveName(a, name, records).value;
      EdgesStayInRecords(a, records[a], records, (target, true));
      ReachesStep(g, a, target, true);
    }
  }

  /** Nothing else is: every required record but the root is required by a required record, never by an optional
      dependency, a peer marked optional, or a dependency that is an optional one too. */
  lemma RequiredHasRequirer(records: map<string, Record>, target: string) returns (a: string, name: string)
    requires target in RequiredSet(records) && target != ""
    ensures a in RequiredSet(records) && ResolveName(a, name, records) == Some(target) && DeclaresEdge(records[a], name, true)
  {
    hide DeclaresEdge, ResolveName, Edges;
    var g := GraphOf(records);
    var path :| IsPath(g, path, true) && path[|path| - 1] == target;
    var init := path[..|path| - 1];
    a := path[|path| - 2];
    assert IsPath(g, init, true) && init[|init| - 1] == a;
    assert Step(g, path[|path| - 2], path[|path| - 1], true);
    EdgesMean(a, records[a], records, target, true);
    name :| ResolveName(a, name, records) == Some(target) && DeclaresEdge(records[a], name, true);
  }

  /** The table never promises more than paths do. */
  ghost predicate Sound(g: Graph, reach: Reachability) {
    && "" in reach && reach[""]
    && forall k | k in reach :: Reaches(g, k, false) && (reach[k] ==> Reaches(g, k, true))
  }

  /** Every table entry is still pending at its current strength, or closed. */
  ghost predicate Covered(g: Graph, reach: Reachability, pending: seq<(string, bool)>, except: Option<string>) {
    forall k | k in reach && Some(k) != except :: (k, reach[k]) in pending || Closed(g, reach, k, reach[k])
  }

  /** How often a locator may have been queued: once when it is in the table, twice when required. */
  ghost function Allowance(reach: Reachability, k: string): nat {
    if k !in reach then 0 else if reach[k] then 2 else 1
  }

  ghost predicate Frugal(reach: Reachability, queued: multiset<string>) {
    forall k :: queued[k] <= Allowance(reach, k)
  }

  function RequiredKeys(reach: Reachability): set<string> {
    set k | k in reach && reach[k]
  }

  /** One turn of the inner loop: the table after seeing one edge. */
  lemma EdgeKeepsCoverage(g: Graph, reach: Reachability, pending: seq<(string, bool)>, except: Option<string>,
                          target: string, required: bool)
    requires Covered(g, reach, pending, except)
    requires target !in reach || (!reach[target] && required)
    ensures Covered(g, reach[target := required], pending + [(target, required)], except)
  {
    var (reach', pending') := (reach[target := required], pending + [(target, required)]);
    forall k | k in reach' && Some(k) != except
      ensures (k, reach'[k]) in pending' || Closed(g, reach', k, reach'[k])
    {
      if k == target {
        assert pending'[|pending|] == (k, reach'[k]);
      } else if (k, reach[k]) in pending {
        var i :| 0 <= i < |pending| && pending[i] == (k, reach[k]);
        assert pending'[i] == (k, reach[k]);
      }
    }
  }

  /** Every entry is pending, or its record was read. */
  ghost predicate ReadOrPending(records: map<string, Record>, matches: Matcher, reach: Reachability,
                                pending: seq<(string, bool)>)
  {
    forall k | k in reach ::
      (k, true) in pending || (k, false) in pending || (k in records && RecordOk(k, records[k], records, matches))
  }

  ghost predicate PendingIsReached(reach: Reachability, pending: seq<(string, bool)>) {
    forall i | 0 <= i < |pending| :: pending[i].0 in reach && (pending[i].1 ==> reach[pending[i].0])
  }

  /** The new entry after an edge is as reachable as the table says. */
  lemma EdgeKeepsSound(g: Graph, reach: Reachability, locator: string, requiredPath: bool, edge: (string, bool))
    requires Sound(g, reach) && locator in reach && (requiredPath ==> reach[locator])
    requires locator in g && edge in g[locator]
    requires edge.0 !in reach || !reach[edge.0]
    ensures Sound(g, reach[edge.0 := requiredPath && edge.1])
  {
    hide Reaches;
    assert edge == (edge.0, edge.1);
    if edge.1 { assert (edge.0, true) in g[locator]; } else { assert (edge.0, false) in g[locator]; }
    ReachesStep(g, locator, edge.0, false);
    if requiredPath && edge.1 {
      ReachesStep(g, locator, edge.0, true);
    }
  }

  lemma EdgesStayInRecords(locator: string, record: Record, records: map<string, Record>, edge: (string, bool))
    requires edge in Edges(locator, record, records)
    ensures edge.0 in records
  {}

  /** With nothing pending the table is exactly the two reachability relations. */
  lemma TableIsReachability(g: Graph, reach: Reachability)
    requires Sound(g, reach) && Covered(g, reach, [], None)
    ensures forall k :: k in reach <==> Reaches(g, k, false)
    ensures RequiredKeys(reach) == set k | k in reach && Reaches(g, k, true)
  {
    forall k ensures k in reach <==> Reaches(g, k, false) {
      if Reaches(g, k, false) {
        var path :| IsPath(g, path, false) && path[|path| - 1] == k;
        ClosedTableIsComplete(g, reach, path, false);
      }
    }
    forall k | k in reach ensures reach[k] <==> Reaches(g, k, true) {
      if Reaches(g, k, true) {
        var path :| IsPath(g, path, true) && path[|path| - 1] == k;
        ClosedTableIsComplete(g, reach, path, true);
      }
    }
  }

  /** Popping the head leaves every entry covered but the popped one at its current strength. */
  lemma PopKeepsCoverage(g: Graph, reach: Reachability, pending: seq<(string, bool)>)
    requires pending != [] && Covered(g, reach, pending, None)
    ensures Covered(g, reach, pending[1..], if pending[0].0 in reach && pending[0].1 == reach[pending[0].0]
                                            then Some(pending[0].0) else None)
  {
    hide Closed;
    var (l, p) := pending[0];
    forall k | k in reach && !(k == l && p == reach[k])
      ensures (k, reach[k]) in pending[1..] || Closed(g, reach, k, reach[k])
    {
      if (k, reach[k]) in pending {
        var i :| 0 <= i < |pending| && pending[i] == (k, reach[k]);
        assert pending[1..][i - 1] == (k, reach[k]);
      }
    }
  }

  lemma PopKeepsRead(records: map<string, Record>, matches: Matcher, reach: Reachability, pending: seq<(string, bool)>)
    requires pending != [] && ReadOrPending(records, matches, reach, pending)
    requires pending[0].0 in records && RecordOk(pending[0].0, records[pending[0].0], records, matches)
    ensures ReadOrPending(records, matches, reach, pending[1..])
  {
    hide RecordOk;
    forall k | k in reach && k != pending[0].0
      ensures (k, true) in pending[1..] || (k, false) in pending[1..]
              || (k in records && RecordOk(k, records[k], records, matches))
    {
      if (k, true) in pending {
        var i :| 0 <= i < |pending| && pending[i] == (k, true);
        assert pending[1..][i - 1] == (k, true);
      } else if (k, false) in pending {
        var i :| 0 <= i < |pending| && pending[i] == (k, false);
        assert pending[1..][i - 1] == (k, false);
      }
    }
  }

  lemma PushKeepsRead(records: map<string, Record>, matches: Matcher, reach: Reachability,
                      pending: seq<(string, bool)>, entry: (string, bool))
    requires ReadOrPending(records, matches, reach, pending)
    ensures ReadOrPending(records, matches, reach[entry.0 := entry.1], pending + [entry])
  {
    hide RecordOk;
    var pending' := pending + [entry];
    assert entry in pending' && entry == (entry.0, entry.1);
    if entry.1 { assert (entry.0, true) in pending'; } else { assert (entry.0, false) in pending'; }
    forall k | k in reach[entry.0 := entry.1] && k != entry.0
      ensures (k, true) in pending' || (k, false) in pending' || (k in records && RecordOk(k, records[k], records, matches))
    {
      assert forall b :: (k, b) in pending ==> (k, b) in pending';
    }
  }

  /** What is left to do: locators not in the table, and locators not required. */
  ghost function Todo(universe: set<string>, reach: Reachability): nat {
    |universe - reach.Keys| + |universe - RequiredKeys(reach)|
  }

  lemma EdgeLowersTodo(universe: set<string>, reach: Reachability, target: string, required: bool)
    requires target in universe && (target !in reach || (!reach[target] && required))
    ensures Todo(universe, reach[target := required]) < Todo(universe, reach)
  {
    hide RequiredKeys;
    var reach' := reach[target := required];
    assert reach'.Keys == reach.Keys + {target};
    RequiredKeysUpdate(reach, target, required);
    RemovalLowersCount(universe, reach.Keys, target);
    RemovalLowersCount(universe, RequiredKeys(reach), target);
    assert target in reach ==> reach.Keys + {target} == reach.Keys;
  }

  lemma RequiredKeysUpdate(reach: Reachability, target: string, required: bool)
    requires target !in reach || (!reach[target] && required)
    ensures RequiredKeys(reach[target := required]) == if required then RequiredKeys(reach) + {target} else RequiredKeys(reach)
    ensures target !in RequiredKeys(reach)
  {}

  lemma RemovalLowersCount(universe: set<string>, taken: set<string>, target: string)
    requires target in universe
    ensures target !in taken ==> |universe - (taken + {target})| == |universe - taken| - 1
  {
    if target !in taken {
      assert universe - (taken + {target}) == (universe - taken) - {target};
    }
  }

  lemma EdgeKeepsFrugal(reach: Reachability, queued: multiset<string>, target: string, required: bool)
    requires Frugal(reach, queued) && (target !in reach || (!reach[target] && required))
    ensures Frugal(reach[target := required], queued + multiset{target})
  {
    forall k ensures (queued + multiset{target})[k] <= Allowance(reach[target := required], k) {
      assert queued[k] <= Allowance(reach, k);
    }
  }

  /** The worklist. Whatever order the edges come in, it decides exactly whether the closure is well
      formed and complete, and returns exactly the records that required paths lead to; no locator is
      queued more than twice. */
  method VerifyClosure(records: map<string, Record>, matches: Matcher)
    returns (r: Option<set<string>>, ghost queued: multiset<string>)
    ensures r.Some? <==> ClosureOk(records, matches)
    ensures r.Some? ==> r.value == RequiredSet(records)
    ensures r.Some? ==> forall a, name | a in r.value && DeclaresEdge(records[a], name, true) ::
      ResolveName(a, name, records).Some? && ResolveName(a, name, records).value in r.value
    ensures forall locator :: queued[locator] <= 2
  {
    hide RecordOk, Edges, Reaches, Closed, Covered, Sound, RequiredKeys, Todo, ReadOrPending, Frugal, DeclaresEdge, AllAcceptable, ResolveName;
    ghost var g := GraphOf(records);
    ghost var universe := records.Keys + {""};
    var reachability: Reachability := map["" := true];
    var pending: seq<(string, bool)> := [("", true)];
    queued := multiset{""};
    StartState(records, matches);
    while pending != []
      invariant "" in reachability && reachability.Keys <= universe
      invariant Sound(g, reachability)
      invariant PendingIsReached(reachability, pending)
      invariant Covered(g, reachability, pending, None)
      invariant ReadOrPending(records, matches, reachability, pending)
      invariant Frugal(reachability, queued)
      decreases Todo(universe, reachability), |pending|
    {
      var (locator, requiredPath) := pending[0];
      ghost var (reach0, pending0) := (reachability, pending);
      pending := pending[1..];
      if locator !in records {
        AllowanceBounds(reachability, queued);
        return None, queued;
      }
      var edges := DependencyEdges(locator, records[locator], records, matches);
      if edges.None? {
        AllowanceBounds(reachability, queued);
        return None, queued;
      }
      ghost var except := if requiredPath == reachability[locator] then Some(locator) else None;
      PopKeepsCoverage(g, reach0, pending0);
      PopKeepsRead(records, matches, reach0, pending0);
      for i := 0 to |edges.value|
        invariant locator in reachability && (requiredPath ==> reachability[locator])
        invariant "" in reachability && reachability.Keys <= universe
        invariant Sound(g, reachability)
        invariant PendingIsReached(reachability, pending)
        invariant Covered(g, reachability, pending, except)
        invariant except.Some? ==> requiredPath == reachability[locator]
        invariant ReadOrPending(records, matches, reachability, pending)
        invariant Frugal(reachability, queued)
        invariant forall j | 0 <= j < i ::
                    var e := edges.value[j];
                    e.0 in reachability && (requiredPath && e.1 ==> reachability[e.0])
        invariant if reachability == reach0 then pending == pending0[1..]
                  else Todo(universe, reachability) < Todo(universe, reach0)
      {
        var (resolved, requiredEdge) := edges.value[i];
        var required := requiredPath && requiredEdge;
        assert (resolved, requiredEdge) in edges.value && (resolved, requiredEdge) in g[locator];
        EdgesStayInRecords(locator, records[locator], records, (resolved, requiredEdge));
        if resolved !in reachability || (!reachability[resolved] && required) {
          EdgeKeepsSound(g, reachability, locator, requiredPath, (resolved, requiredEdge));
          EdgeKeepsCoverage(g, reachability, pending, except, resolved, required);
          PushKeepsRead(records, matches, reachability, pending, (resolved, required));
          EdgeLowersTodo(universe, reachability, resolved, required);
          EdgeKeepsFrugal(reachability, queued, resolved, required);
          queued := queued + multiset{resolved};
        }
        if resolved !in reachability {
          reachability := reachability[resolved := required];
          pending := pending + [(resolved, required)];
        } else if !reachability[resolved] && required {
          reachability := reachability[resolved := true];
          pending := pending + [(resolved, true)];
        }
      }
      CloseLocator(g, reachability, pending, locator, requiredPath, except, edges.value);
    }
    AllowanceBounds(reachability, queued);
    TableIsReachability(g, reachability);
    TableIsWithinRecords(records, matches, reachability);
    if |reachability| != |records| {
      return None, queued;
    }
    r := Some(RequiredKeys(reachability));
    RequiredSetIsClosed(records, matches);
  }

  lemma StartState(records: map<string, Record>, matches: Matcher)
    ensures var (g, reach, pending) := (GraphOf(records), map["" := true], [("", true)]);
            && Sound(g, reach) && Covered(g, reach, pending, None)
            && ReadOrPending(records, matches, reach, pending) && Frugal(reach, multiset{""})
  {
    hide Reaches, RecordOk;
    var (g, pending) := (GraphOf(records), [("", true)]);
    RootIsReached(g, true);
    RootIsReached(g, false);
    assert pending[0] == ("", true);
  }

  lemma AllowanceBounds(reach: Reachability, queued: multiset<string>)
    requires Frugal(reach, queued)
    ensures forall k :: queued[k] <= 2
  {
    forall k ensures queued[k] <= 2 {
      assert queued[k] <= Allowance(reach, k);
    }
  }

  /** After its edges were seen, the popped locator is closed too. */
  lemma CloseLocator(g: Graph, reach: Reachability, pending: seq<(string, bool)>, locator: string,
                     requiredPath: bool, except: Option<string>, edges: seq<(string, bool)>)
    requires Covered(g, reach, pending, except) && except in {None, Some(locator)}
    requires except.Some? ==> locator in reach && requiredPath == reach[locator]
    requires locator in g && forall e :: e in edges <==> e in g[locator]
    requires forall j | 0 <= j < |edges| :: edges[j].0 in reach && (requiredPath && edges[j].1 ==> reach[edges[j].0])
    ensures Covered(g, reach, pending, None)
  {
    if except.Some? {
      forall t, r | (t, r) in g[locator] ensures t in reach && (requiredPath && r ==> reach[t]) {
        var j :| 0 <= j < |edges| && edges[j] == (t, r);
      }
      assert Closed(g, reach, locator, reach[locator]);
    }
  }

  /** With nothing pending every entry is a well-formed record; all records are entries exactly when the
      counts agree. */
  lemma TableIsWithinRecords(records: map<string, Record>, matches: Matcher, reach: Reachability)
    requires ReadOrPending(records, matches, reach, [])
    ensures reach.Keys <= records.Keys
    ensures forall k | k in reach :: RecordOk(k, records[k], records, matches)
    ensures |reach| == |records| <==> reach.Keys == records.Keys
  {
    hide RecordOk;
    assert records.Keys == reach.Keys + (records.Keys - reach.Keys) by {
      forall k | k in reach ensures k in records {}
    }
    assert |records.Keys| == |reach.Keys| + |records.Keys - reach.Keys|;
  }

  // ----- Pruning on top of the closure

  /** The lock's optional flag: absent means false, anything but a boolean is an error. */
  function OptionalFlag(locks: map<string, Record>, locator: string): Option<bool> {
    if locator !in locks then None
    else if "optional" !in locks[locator] then Some(false)
    else if locks[locator]["optional"].Bool? then Some(locks[locator]["optional"].flag)
    else None
  }

  /** The lock marks the package optional, or it does not: by saying false or by saying nothing. */
  ghost predicate FlagSays(locks: map<string, Record>, locator: string, optional: bool) {
    && locator in locks
    && if optional then "optional" in locks[locator] && locks[locator]["optional"] == Bool(true)
       else "optional" !in locks[locator] || locks[locator]["optional"] == Bool(false)
  }

  lemma OptionalFlagMeans(locks: map<string, Record>, locator: string, optional: bool)
    ensures OptionalFlag(locks, locator) == Some(optional) <==> FlagSays(locks, locator, optional)
  {}

  ghost predicate PackageApplicable(declarations: map<string, Record>, locks: map<string, Record>,
                                    pruned: set<string>, required: set<string>, locator: string)
    requires locator in declarations
  {
    && OptionalFlag(locks, locator) == Some(locator !in required)
    && (locator in required ==> locator !in pruned)
    && (locator !in pruned ==>
          forall t | (t, true) in Edges(locator, declarations[locator], declarations) :: t !in pruned)
  }

  /** What the check over all packages but the root demands. */
  ghost predicate ApplicableOk(declarations: map<string, Record>, locks: map<string, Record>, pruned: set<string>,
                               matches: Matcher)
  {
    && ClosureOk(declarations, matches)
    && forall l | l in declarations && l != "" ::
         PackageApplicable(declarations, locks, pruned, RequiredSet(declarations), l)
  }

  method VerifyApplicableClosure(declarations: map<string, Record>, locks: map<string, Record>, pruned: set<string>,
                                 matches: Matcher)
    returns (ok: bool)
    ensures ok <==> ApplicableOk(declarations, locks, pruned, matches)
  {
    hide RecordOk, Edges, Reaches, RequiredSet;
    var closure, _ := VerifyClosure(declarations, matches);
    if closure.None? { return false; }
    var required := closure.value;
    var todo := declarations.Keys;
    while todo != {}
      invariant todo <= declarations.Keys
      invariant forall l | l in declarations.Keys - todo && l != "" ::
                  PackageApplicable(declarations, locks, pruned, required, l)
    {
      var locator :| locator in todo;
      todo := todo - {locator};
      if locator != "" {
        var flag := OptionalFlag(locks, locator);
        if flag.None? { return false; }
        var expectedOptional := locator !in required;
        if flag.value != expectedOptional || (!expectedOptional && locator in pruned) { return false; }
        if locator !in pruned {
          var edges := DependencyEdges(locator, declarations[locator], declarations, matches);
          if edges.None? { return false; }
          for i := 0 to |edges.value|
            invariant forall j | 0 <= j < i :: edges.value[j].1 ==> edges.value[j].0 !in pruned
          {
            var (target, requiredEdge) := edges.value[i];
            if requiredEdge && target in pruned {
              assert (target, true) in edges.value;
              return false;
            }
          }
          forall t | (t, true) in Edges(locator, declarations[locator], declarations) ensures t !in pruned {
            var j :| 0 <= j < |edges.value| && edges.value[j] == (t, true);
          }
        }
      }
    }
    ok := true;
  }

  /** What stays after pruning is closed under required edges: from the root because its required
      targets are required, from every other kept package by the check itself. No required package is
      pruned, and the lock's optional flag says exactly which packages are not required. */
  lemma AcceptedPruningIsClosed(declarations: map<string, Record>, locks: map<string, Record>, pruned: set<string>,
                                matches: Matcher)
    requires ApplicableOk(declarations, locks, pruned, matches)
    ensures forall a, t | a in declarations && (a == "" || a !in pruned) && Step(GraphOf(declarations), a, t, true) ::
              t in declarations && t !in pruned
    ensures forall l | l in declarations && l != "" ::
              && (Reaches(GraphOf(declarations), l, true) ==> l !in pruned)
              && l in locks
              && (if Reaches(GraphOf(declarations), l, true)
                  then "optional" !in locks[l] || locks[l]["optional"] == Bool(false)
                  else "optional" in locks[l] && locks[l]["optional"] == Bool(true))
  {
    hide RecordOk, Edges, Reaches, OptionalFlag;
    var g := GraphOf(declarations);
    forall l | l in declarations && l != ""
      ensures Reaches(g, l, true) ==> l !in pruned
      ensures FlagSays(locks, l, !Reaches(g, l, true))
    {
      OptionalFlagMeans(locks, l, !Reaches(g, l, true));
      assert PackageApplicable(declarations, locks, pruned, RequiredSet(declarations), l);
    }
    forall a, t | a in declarations && (a == "" || a !in pruned) && Step(g, a, t, true)
      ensures t in declarations && t !in pruned
    {
      EdgesStayInRecords(a, declarations[a], declarations, (t, true));
      TargetsAreNotRoot(a, declarations[a], declarations, (t, true));
      if a == "" {
        RootIsReached(g, true);
        ReachesStep(g, a, t, true);
      } else {
        assert PackageApplicable(declarations, locks, pruned, RequiredSet(declarations), a);
      }
    }
  }

  lemma TargetsAreNotRoot(locator: string, record: Record, records: map<string, Record>, edge: (string, bool))
    requires edge in Edges(locator, record, records)
    ensures edge.0 != ""
  {
    var field, name :| field in EDGE_FIELDS && FieldEdge(locator, record, records, field, name, edge);
    NearestIsNotRoot(Bases(locator), name, records.Keys);
    assert FieldEdge(locator, record, records, field, name, edge);
    assert ResolveName(locator, name, records) == Some(edge.0);
    assert Nearest(Bases(locator), name, records.Keys).value == edge.0;
  }

  // ----- Archive declarations against lock records

  /** The same dependency maps, with an empty map equal to an absent one. */
  predicate SameMap(declaration: Record, record: Record, field: string) {
    var (d, r) := (DependencyMap(declaration, field), DependencyMap(record, field));
    d.Some? && r.Some? && d == r
  }

  predicate CompareDependencies(declaration: Record, record: Record) {
    && SameMap(declaration, record, DEPENDENCIES)
    && SameMap(declaration, record, OPTIONAL)
    && SameMap(declaration, record, PEER)
    && SameMap(declaration, record, PEER_META)
  }

  /** Every declaration passed the comparison with its lock record and has the same version text. */
  predicate Agree(declarations: map<string, Record>, locks: map<string, Record>) {
    && declarations.Keys == locks.Keys
    && forall l | l in declarations ::
         && CompareDependencies(declarations[l], locks[l])
         && TextField(declarations[l], "version").Some?
         && TextField(declarations[l], "version") == TextField(locks[l], "version")
  }

  /** Two records agree on a field exactly when both hold a map there or nothing, with the same entries. */
  lemma SameMapMeans(declaration: Record, record: Record, field: string)
    ensures SameMap(declaration, record, field) <==> (
      && (field in declaration ==> declaration[field].Object?) && (field in record ==> record[field].Object?)
      && (forall name :: Declares(declaration, field, name) <==> Declares(record, field, name))
      && (forall name | Declares(declaration, field, name) && Declares(record, field, name) ::
            declaration[field].fields[name] == record[field].fields[name]))
  {
    hide Declares;
    forall name
      ensures name in Entries(declaration, field) <==> Declares(declaration, field, name)
      ensures name in Entries(record, field) <==> Declares(record, field, name)
      ensures Declares(declaration, field, name) ==> Entries(declaration, field)[name] == declaration[field].fields[name]
      ensures Declares(record, field, name) ==> Entries(record, field)[name] == record[field].fields[name]
    {
      EntriesMean(declaration, field, name);
      EntriesMean(record, field, name);
    }
    EntriesMean(declaration, field, "");
    EntriesMean(record, field, "");
    if DependencyMap(declaration, field).Some? && DependencyMap(record, field).Some? {
      EntriesDecide(declaration, record, field);
    }
  }

  lemma EntriesDecide(declaration: Record, record: Record, field: string)
    requires DependencyMap(declaration, field).Some? && DependencyMap(record, field).Some?
    ensures SameMap(declaration, record, field) <==> Entries(declaration, field) == Entries(record, field)
  {}

  lemma SameEntries(declaration: Record, record: Record)
    requires CompareDependencies(declaration, record)
    ensures forall field <- EDGE_FIELDS :: DependencyMap(declaration, field) == DependencyMap(record, field)
                                           && Entries(declaration, field) == Entries(record, field)
    ensures forall name :: OptionalPeer(declaration, name) <==> OptionalPeer(record, name)
  {
    assert forall name :: Get(Some(Object(map[])), name) == None;
  }

  lemma SameRecord(locator: string, declarations: map<string, Record>, locks: map<string, Record>, matches: Matcher)
    requires Agree(declarations, locks) && locator in declarations
    ensures RecordOk(locator, declarations[locator], declarations, matches)
            <==> RecordOk(locator, locks[locator], locks, matches)
    ensures Edges(locator, declarations[locator], declarations) == Edges(locator, locks[locator], locks)
  {
    hide Nearest, Bases, ValidPackageName, DependencyMap, OptionalPeer, TextField;
    var (d, r) := (declarations[locator], locks[locator]);
    SameEntries(d, r);
    assert OPTIONAL in EDGE_FIELDS;
    forall field, name | field in EDGE_FIELDS && name in Entries(d, field)
      ensures EntryOk(locator, d, declarations, matches, field, name) <==> EntryOk(locator, r, locks, matches, field, name)
    {}
    forall field | field in EDGE_FIELDS
      ensures FieldOk(locator, d, declarations, matches, field) <==> FieldOk(locator, r, locks, matches, field)
    {}
    forall field, name, edge | field in EDGE_FIELDS
      ensures FieldEdge(locator, d, declarations, field, name, edge) <==> FieldEdge(locator, r, locks, field, name, edge)
    {}
  }

  /** So the graph and the whole verdict computed from the archives are those computed from the lock. */
  lemma DeclarationsAgreeWithLock(declarations: map<string, Record>, locks: map<string, Record>, matches: Matcher)
    requires Agree(declarations, locks)
    ensures GraphOf(declarations) == GraphOf(locks)
    ensures ClosureOk(declarations, matches) <==> ClosureOk(locks, matches)
    ensures RequiredSet(declarations) == RequiredSet(locks)
  {
    hide RecordOk, Edges, Reaches;
    forall l | l in declarations
      ensures RecordOk(l, declarations[l], declarations, matches) <==> RecordOk(l, locks[l], locks, matches)
      ensures Edges(l, declarations[l], declarations) == Edges(l, locks[l], locks)
    {
      SameRecord(l, declarations, locks, matches);
    }
    assert GraphOf(declarations) == GraphOf(locks);
  }
}
