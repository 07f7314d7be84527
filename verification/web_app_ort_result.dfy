/** The report model: one pass over the input document that keeps every
    section (each read under its snake_case or camelCase key, snake_case
    first), builds the dependency forest with its reverse tree index, groups
    issues and rule violations by package index, indexes licenses by name,
    and derives the project list, the tree levels and the license name
    lists. The getters answer `null`/`[]`/`false` for anything absent. */
module WebAppOrtResult {
  import opened Wrappers
  import opened Fields
  import opened WebAppTreeNode
  import opened ReverseIndex
  import JsSet

  /** A record whose contents this model does not inspect: copyrights,
      paths, scan results, scopes, exclusion rules, resolutions, custom data
      and the repository configuration. */
  datatype Blob = Blob(content: string)

  datatype License = License(id: string)

  datatype Package = Package(id: string, packageIndex: int, isProject: bool)

  datatype Issue = Issue(packageIndex: int, message: string)

  datatype RuleViolation = RuleViolation(packageIndex: int, message: string)

  /** Open findings of one kind, counted by severity. */
  datatype Buckets = Buckets(errors: int, warnings: int, hints: int)

  /** The precomputed statistics of the report; `totalTreeDepth` is 0 when
      the report gives none. */
  datatype Statistics = Statistics(openIssues: Buckets, openRuleViolations: Buckets, totalTreeDepth: int)

  /** No license name occurs twice: the keys of a JavaScript object are
      distinct. */
  predicate DistinctNames(entries: seq<(string, int)>)
  {
    forall i, j :: 0 <= i < j < |entries| ==> entries[i].0 != entries[j].0
  }

  type StatsEntries = e: seq<(string, int)> | DistinctNames(e) witness []

  /** A license statistics object: license names in `Object.keys` order,
      each with its count. */
  datatype LicenseStats = LicenseStats(entries: StatsEntries)

  /** The input document. Each field is `None` when the section is absent
      or falsy; sections with two accepted spellings are `Aliased`. */
  datatype Document = Document(
    copyrights: Option<seq<Blob>>,
    customData: Aliased<Blob>,
    declaredLicenseStats: Aliased<LicenseStats>,
    dependencyTrees: Aliased<seq<RawNode>>,
    detectedLicenseStats: Aliased<LicenseStats>,
    licenses: Option<seq<License>>,
    packages: Option<seq<Package>>,
    pathExcludes: Aliased<seq<Blob>>,
    paths: Option<seq<Blob>>,
    scanResults: Aliased<seq<Blob>>,
    scopes: Option<seq<Blob>>,
    statistics: Option<Statistics>,
    scopeExcludes: Aliased<seq<Blob>>,
    repositoryConfiguration: Aliased<Blob>,
    issues: Option<seq<Issue>>,
    issueResolutions: Aliased<seq<Blob>>,
    ruleViolations: Aliased<seq<RuleViolation>>,
    ruleViolationResolutions: Aliased<seq<Blob>>)

  /** The built model. `customData`, `statistics` and `repositoryConfiguration`
      are `None` while they hold their defaults (`{}`, `{}`, `undefined`);
      `treeNodesByPackageIndex` is `None` (`undefined`) unless the document had
      a dependency-trees section. */
  datatype OrtResult = OrtResult(
    copyrights: seq<Blob>,
    customData: Option<Blob>,
    declaredLicenses: seq<string>,
    declaredLicenseStats: LicenseStats,
    dependencyTrees: seq<Node>,
    treeNodesByPackageIndex: Option<Index>,
    detectedLicenses: seq<string>,
    detectedLicenseStats: LicenseStats,
    issues: seq<Issue>,
    issuesByPackageIndex: map<int, seq<Issue>>,
    issueResolutions: seq<Blob>,
    levels: seq<int>,
    licenses: seq<License>,
    licenseIndexByName: map<string, int>,
    packages: seq<Package>,
    pathExcludes: seq<Blob>,
    paths: seq<Blob>,
    projects: seq<Package>,
    scanResults: seq<Blob>,
    scopes: seq<Blob>,
    scopeExcludes: seq<Blob>,
    statistics: Option<Statistics>,
    repositoryConfiguration: Option<Blob>,
    ruleViolations: seq<RuleViolation>,
    ruleViolationsByPackageIndex: map<int, seq<RuleViolation>>,
    ruleViolationResolutions: seq<Blob>)
  {
    function CopyrightByIndex(i: int): Option<Blob> { At(copyrights, i) }

    function LicenseByIndex(i: int): Option<License> { At(licenses, i) }

    /** `licenses[indexByName.get(name)] || null`. */
    function LicenseByName(name: string): Option<License>
    {
      if name in licenseIndexByName then At(licenses, licenseIndexByName[name]) else None
    }

    function PackageByIndex(i: int): Option<Package> { At(packages, i) }

    function PathByIndex(i: int): Option<Blob> { At(paths, i) }

    function ScanResultByIndex(i: int): Option<Blob> { At(scanResults, i) }

    function ScopeByIndex(i: int): Option<Blob> { At(scopes, i) }

    function IssuesForPackageIndex(p: int): seq<Issue>
    {
      if p in issuesByPackageIndex then issuesByPackageIndex[p] else []
    }

    function RuleViolationsForPackageIndex(p: int): seq<RuleViolation>
    {
      if p in ruleViolationsByPackageIndex then ruleViolationsByPackageIndex[p] else []
    }

    /** Reads a plain object that is only assigned when the document had a
        dependency-trees section; otherwise the source throws. */
    function TreeNodeParentKeysByIndex(p: int): Option<Entry>
      requires treeNodesByPackageIndex.Some?
    {
      if p in treeNodesByPackageIndex.value then Some(treeNodesByPackageIndex.value[p]) else None
    }

    /** Destructures `statistics.openIssues`; without a statistics section
        the source throws. */
    predicate HasIssues()
      requires statistics.Some?
    {
      AnyOpen(statistics.value.openIssues)
    }

    predicate HasIssuesForPackageIndex(p: int) { p in issuesByPackageIndex }

    predicate HasRuleViolations()
      requires statistics.Some?
    {
      AnyOpen(statistics.value.openRuleViolations)
    }

    predicate HasRuleViolationsForPackageIndex(p: int) { p in ruleViolationsByPackageIndex }
  }

  /** `array[i] || null` on an array of objects: the element when `i` is an
      index of the array, `null` otherwise. */
  function At<T>(s: seq<T>, i: int): (r: Option<T>)
    ensures r.Some? <==> 0 <= i < |s|
    ensures r.Some? ==> r.value == s[i]
  {
    if 0 <= i < |s| then Some(s[i]) else None
  }

  /** Some severity bucket counts an open finding. */
  predicate AnyOpen(b: Buckets)
  {
    b.errors > 0 || b.hints > 0 || b.warnings > 0
  }

  /** `Object.keys(stats)`: every license name exactly once, in the
      object's order. */
  function StatsKeys(stats: LicenseStats): (r: seq<string>)
    ensures JsSet.NoDups(r)
    ensures forall k :: k in r <==> exists j :: 0 <= j < |stats.entries| && stats.entries[j].0 == k
    ensures |r| == |stats.entries|
    ensures forall i :: 0 <= i < |r| ==> r[i] == stats.entries[i].0
  {
    var r := seq(|stats.entries|, i requires 0 <= i < |stats.entries| => stats.entries[i].0);
    assert forall k :: k in r ==> exists j :: 0 <= j < |r| && r[j] == k;
    assert forall j :: 0 <= j < |r| ==> r[j] == stats.entries[j].0 && r[j] in r;
    r
  }

  // ---------------------------------------------------------------------
  // The loops of the constructor

  /** One iteration of the grouping loop shared by issues and rule
      violations: the record is appended to the list of its package index,
      which is created on first use. */
  function AddToGroup<T>(groups: map<int, seq<T>>, x: T, indexOf: T -> int): (r: map<int, seq<T>>)
    ensures r.Keys == groups.Keys + {indexOf(x)}
    ensures forall p :: p in groups && p != indexOf(x) ==> r[p] == groups[p]
  {
    if indexOf(x) !in groups then groups[indexOf(x) := [x]]
    else groups[indexOf(x) := groups[indexOf(x)] + [x]]
  }

  /** The grouping loop. */
  function Group<T>(xs: seq<T>, indexOf: T -> int): map<int, seq<T>>
  {
    if |xs| == 0 then map[] else AddToGroup(Group(xs[..|xs| - 1], indexOf), xs[|xs| - 1], indexOf)
  }

  /** The records with package index `p`, in input order. */
  function Filter<T(!new)>(xs: seq<T>, indexOf: T -> int, p: int): (r: seq<T>)
    ensures forall x :: x in r <==> x in xs && indexOf(x) == p
    ensures |r| <= |xs|
  {
    if |xs| == 0 then []
    else
      var x := xs[|xs| - 1];
      assert xs == xs[..|xs| - 1] + [x];
      Filter(xs[..|xs| - 1], indexOf, p) + (if indexOf(x) == p then [x] else [])
  }

  /** `groups` holds, for each package index used by some record of `xs`,
      exactly the records with that index in input order, and no other
      groups. */
  ghost predicate Grouped<T(!new)>(groups: map<int, seq<T>>, xs: seq<T>, indexOf: T -> int)
  {
    && (forall p :: p in groups <==> exists x :: x in xs && indexOf(x) == p)
    && (forall p :: p in groups ==> groups[p] == Filter(xs, indexOf, p))
    && (forall p :: p !in groups ==> Filter(xs, indexOf, p) == [])
  }

  lemma AddToGroupStep<T(!new)>(groups: map<int, seq<T>>, xs: seq<T>, x: T, indexOf: T -> int)
    requires Grouped(groups, xs, indexOf)
    ensures Grouped(AddToGroup(groups, x, indexOf), xs + [x], indexOf)
  {
    GroupKeysStep(groups, xs, x, indexOf);
    GroupValuesStep(groups, xs, x, indexOf);
  }

  /** The groups of one more record exist exactly for the indices used. */
  lemma GroupKeysStep<T(!new)>(groups: map<int, seq<T>>, xs: seq<T>, x: T, indexOf: T -> int)
    requires forall p :: p in groups <==> exists y :: y in xs && indexOf(y) == p
    ensures forall p :: p in AddToGroup(groups, x, indexOf) <==> exists y :: y in xs + [x] && indexOf(y) == p
  {
    var all := xs + [x];
    var g := AddToGroup(groups, x, indexOf);
    forall p | p in g
      ensures exists y :: y in all && indexOf(y) == p
    {
      if p == indexOf(x) {
        assert x in all;
      } else {
        var y :| y in xs && indexOf(y) == p;
        assert y in all;
      }
    }
    forall y | y in all
      ensures indexOf(y) in g
    {
      if y != x {
        assert y in xs;
      }
    }
  }

  /** The group contents after one more record are the filters of the
      extended list. */
  lemma GroupValuesStep<T(!new)>(groups: map<int, seq<T>>, xs: seq<T>, x: T, indexOf: T -> int)
    requires forall p :: p in groups ==> groups[p] == Filter(xs, indexOf, p)
    requires forall p :: p !in groups ==> Filter(xs, indexOf, p) == []
    ensures forall p :: p in AddToGroup(groups, x, indexOf) ==>
      AddToGroup(groups, x, indexOf)[p] == Filter(xs + [x], indexOf, p)
    ensures forall p :: p !in AddToGroup(groups, x, indexOf) ==> Filter(xs + [x], indexOf, p) == []
  {
    forall p
      ensures Filter(xs + [x], indexOf, p) == Filter(xs, indexOf, p) + (if indexOf(x) == p then [x] else [])
    {
      assert (xs + [x])[..|xs|] == xs;
    }
  }

  /** Grouping yields, for each package index used by some record, exactly
      the records with that index in input order, and no other groups. */
  lemma {:induction false} GroupIsFilter<T(!new)>(xs: seq<T>, indexOf: T -> int)
    ensures Grouped(Group(xs, indexOf), xs, indexOf)
  {
    if |xs| > 0 {
      var n := |xs| - 1;
      var init := xs[..n];
      assert init + [xs[n]] == xs;
      GroupIsFilter(init, indexOf);
      AddToGroupStep(Group(init, indexOf), init, xs[n], indexOf);
      assert Group(xs, indexOf) == AddToGroup(Group(init, indexOf), xs[n], indexOf);
    }
  }

  /** Grouping partitions the records: each lies in the group of its own
      package index and in no other. */
  lemma GroupPartitions<T(!new)>(xs: seq<T>, indexOf: T -> int, x: T)
    requires x in xs
    ensures indexOf(x) in Group(xs, indexOf) && x in Group(xs, indexOf)[indexOf(x)]
    ensures forall p :: p in Group(xs, indexOf) && p != indexOf(x) ==> x !in Group(xs, indexOf)[p]
  {
    GroupIsFilter(xs, indexOf);
  }

  /** The license loop: `map.set(licenses[i].id, i)` for each i in order. */
  function IndexByName(ls: seq<License>): map<string, int>
  {
    if |ls| == 0 then map[] else IndexByName(ls[..|ls| - 1])[ls[|ls| - 1].id := |ls| - 1]
  }

  /** `j` is the last position of a license with id `name`. */
  ghost predicate LastWithId(ls: seq<License>, name: string, j: int)
  {
    0 <= j < |ls| && ls[j].id == name && forall k :: j < k < |ls| ==> ls[k].id != name
  }

  /** The name index maps each license id that occurs to its last position. */
  lemma {:induction false} IndexByNameIsLast(ls: seq<License>)
    ensures forall name :: name in IndexByName(ls) <==> exists i :: 0 <= i < |ls| && ls[i].id == name
    ensures forall name :: name in IndexByName(ls) ==> LastWithId(ls, name, IndexByName(ls)[name])
  {
    if |ls| > 0 {
      var n := |ls| - 1;
      IndexByNameIsLast(ls[..n]);
      forall name | exists i :: 0 <= i < |ls| && ls[i].id == name
        ensures name in IndexByName(ls)
      {
        var i :| 0 <= i < |ls| && ls[i].id == name;
        if i < n {
          assert ls[..n][i].id == name;
        }
      }
    }
  }

  /** The levels loop: `0, 1, …, depth - 1`, nothing when `depth` is not
      positive. */
  function Levels(depth: int): (r: seq<int>)
    ensures |r| == if depth > 0 then depth else 0
    ensures forall i :: 0 <= i < |r| ==> r[i] == i
    decreases depth
  {
    if depth <= 0 then [] else Levels(depth - 1) + [depth - 1]
  }

  /** The packages flagged as projects, in input order. */
  function Projects(ps: seq<Package>): (r: seq<Package>)
    ensures forall q :: q in r <==> q in ps && q.isProject
    ensures |r| <= |ps|
  {
    if |ps| == 0 then []
    else
      var q := ps[|ps| - 1];
      assert ps == ps[..|ps| - 1] + [q];
      Projects(ps[..|ps| - 1]) + (if q.isProject then [q] else [])
  }

  /** The project filter distributes over concatenation: the projects of
      `a + b` are those of `a` followed by those of `b`. */
  lemma {:induction false} ProjectsAppend(a: seq<Package>, b: seq<Package>)
    ensures Projects(a + b) == Projects(a) + Projects(b)
  {
    if |b| == 0 {
      assert a + b == a;
    } else {
      var m := |b| - 1;
      assert a + b == (a + b[..m]) + [b[m]];
      assert b == b[..m] + [b[m]];
      ProjectsSnoc(a + b[..m], b[m]);
      ProjectsSnoc(b[..m], b[m]);
      ProjectsAppend(a, b[..m]);
    }
  }

  /** One more package extends the projects by it when it is a project. */
  lemma ProjectsSnoc(xs: seq<Package>, q: Package)
    ensures Projects(xs + [q]) == Projects(xs) + if q.isProject then [q] else []
  {
    assert (xs + [q])[..|xs|] == xs;
  }

  /** Each project is kept as often as it occurs among the packages, and
      nothing else is kept. */
  lemma {:induction false} ProjectsMultiplicity(ps: seq<Package>)
    ensures forall q :: multiset(Projects(ps))[q] == if q.isProject then multiset(ps)[q] else 0
  {
    if |ps| > 0 {
      var n := |ps| - 1;
      ProjectsMultiplicity(ps[..n]);
      assert ps == ps[..n] + [ps[n]];
      assert multiset(ps) == multiset(ps[..n]) + multiset{ps[n]};
    }
  }

  /** A single package is kept exactly when it is a project. */
  lemma ProjectsOfOne(q: Package)
    ensures Projects([q]) == if q.isProject then [q] else []
  {
    assert [q][..0] == [];
  }

  function IssueIndex(i: Issue): int { i.packageIndex }

  function ViolationIndex(v: RuleViolation): int { v.packageIndex }

  /** The dependency forest and callback trace of a document's trees. */
  function Forest(d: Document): BuiltList
  {
    BuildChildren(d.dependencyTrees.Resolve().GetOr([]), Root)
  }

  /** The model of a value that is not an object: every default. */
  function EmptyResult(): OrtResult
  {
    OrtResult([], None, [], LicenseStats([]), [], None, [], LicenseStats([]),
              [], map[], [], [], [], map[], [], [], [], [], [], [], [],
              None, None, [], map[], [])
  }

  /** The `WebAppOrtResult` constructor. */
  function FromDocument(obj: Option<Document>): OrtResult
  {
    match obj
    case None => EmptyResult()
    case Some(d) =>
      var forest := Forest(d);
      var declared := d.declaredLicenseStats.Resolve();
      var detected := d.detectedLicenseStats.Resolve();
      var licenses := d.licenses.GetOr([]);
      var packages := d.packages.GetOr([]);
      var issues := d.issues.GetOr([]);
      var violations := d.ruleViolations.Resolve().GetOr([]);
      OrtResult(
        copyrights := d.copyrights.GetOr([]),
        customData := d.customData.Resolve(),
        declaredLicenses := if declared.Some? then StatsKeys(declared.value) else [],
        declaredLicenseStats := declared.GetOr(LicenseStats([])),
        dependencyTrees := forest.nodes,
        treeNodesByPackageIndex :=
          if d.dependencyTrees.Resolve().Some? then Some(Apply(map[], forest.calls)) else None,
        detectedLicenses := if detected.Some? then StatsKeys(detected.value) else [],
        detectedLicenseStats := detected.GetOr(LicenseStats([])),
        issues := issues,
        issuesByPackageIndex := Group(issues, IssueIndex),
        issueResolutions := d.issueResolutions.Resolve().GetOr([]),
        levels := if d.statistics.Some? then Levels(d.statistics.value.totalTreeDepth) else [],
        licenses := licenses,
        licenseIndexByName := IndexByName(licenses),
        packages := packages,
        pathExcludes := d.pathExcludes.Resolve().GetOr([]),
        paths := d.paths.GetOr([]),
        projects := Projects(packages),
        scanResults := d.scanResults.Resolve().GetOr([]),
        scopes := d.scopes.GetOr([]),
        scopeExcludes := d.scopeExcludes.Resolve().GetOr([]),
        statistics := d.statistics,
        repositoryConfiguration := d.repositoryConfiguration.Resolve(),
        ruleViolations := violations,
        ruleViolationsByPackageIndex := Group(violations, ViolationIndex),
        ruleViolationResolutions := d.ruleViolationResolutions.Resolve().GetOr([]))
  }

  // ---------------------------------------------------------------------
  // What the built model answers, in terms of the document

  /** `getIssuesForPackageIndex(p)` is exactly the document's issues with
      index `p`, in input order (`[]` when there are none); the flat list is
      the input list. */
  lemma IssuesByPackageIndex(d: Document, p: int)
    ensures var r := FromDocument(Some(d));
      && r.issues == d.issues.GetOr([])
      && r.IssuesForPackageIndex(p) == Filter(d.issues.GetOr([]), IssueIndex, p)
  {
    GroupIsFilter(d.issues.GetOr([]), IssueIndex);
  }

  /** `hasIssuesForPackageIndex(p)` holds exactly when some issue carries
      `p`. */
  lemma HasIssuesForPackageIndexIffSome(d: Document, p: int)
    ensures FromDocument(Some(d)).HasIssuesForPackageIndex(p) <==>
      exists i :: i in d.issues.GetOr([]) && i.packageIndex == p
  {
    GroupIsFilter(d.issues.GetOr([]), IssueIndex);
  }

  /** The same for rule violations, read from `rule_violations` or else
      `ruleViolations`. */
  lemma RuleViolationsByPackageIndex(d: Document, p: int)
    ensures var r := FromDocument(Some(d));
      var vs := d.ruleViolations.Resolve().GetOr([]);
      && r.ruleViolations == vs
      && r.RuleViolationsForPackageIndex(p) == Filter(vs, ViolationIndex, p)
  {
    GroupIsFilter(d.ruleViolations.Resolve().GetOr([]), ViolationIndex);
  }

  /** `hasRuleViolationsForPackageIndex(p)` holds exactly when some rule
      violation carries `p`. */
  lemma HasRuleViolationsForPackageIndexIffSome(d: Document, p: int)
    ensures FromDocument(Some(d)).HasRuleViolationsForPackageIndex(p) <==>
      exists v :: v in d.ruleViolations.Resolve().GetOr([]) && v.packageIndex == p
  {
    GroupIsFilter(d.ruleViolations.Resolve().GetOr([]), ViolationIndex);
  }

  /** `getLicenseByName(name)` is the license at the last position whose id
      is `name`, and `null` when no license has that id. */
  lemma LicenseByNameIsLast(d: Document, name: string)
    ensures var r := FromDocument(Some(d));
      var ls := d.licenses.GetOr([]);
      && (r.LicenseByName(name).None? <==> forall i :: 0 <= i < |ls| ==> ls[i].id != name)
      && (r.LicenseByName(name).Some? ==>
            exists j :: LastWithId(ls, name, j) && r.LicenseByName(name) == Some(ls[j]))
  {
    IndexByNameIsLast(d.licenses.GetOr([]));
  }

  /** The by-index getters return the element of the section at that index
      when it is in range and `null` otherwise. */
  lemma ByIndexGetters(d: Document, i: int)
    ensures var r := FromDocument(Some(d));
      && r.CopyrightByIndex(i) == (if 0 <= i < |d.copyrights.GetOr([])| then Some(d.copyrights.GetOr([])[i]) else None)
      && r.LicenseByIndex(i) == (if 0 <= i < |d.licenses.GetOr([])| then Some(d.licenses.GetOr([])[i]) else None)
      && r.PackageByIndex(i) == (if 0 <= i < |d.packages.GetOr([])| then Some(d.packages.GetOr([])[i]) else None)
      && r.PathByIndex(i) == (if 0 <= i < |d.paths.GetOr([])| then Some(d.paths.GetOr([])[i]) else None)
      && r.ScopeByIndex(i) == (if 0 <= i < |d.scopes.GetOr([])| then Some(d.scopes.GetOr([])[i]) else None)
      && var sr := d.scanResults.Resolve().GetOr([]);
         r.ScanResultByIndex(i) == (if 0 <= i < |sr| then Some(sr[i]) else None)
  {
  }

  /** `levels` counts up from 0 to `totalTreeDepth - 1`, and is empty when
      there are no statistics or the depth is 0. */
  lemma LevelsCountUp(d: Document)
    ensures var r := FromDocument(Some(d));
      var depth := if d.statistics.Some? then d.statistics.value.totalTreeDepth else 0;
      && |r.levels| == (if depth > 0 then depth else 0)
      && forall i :: 0 <= i < |r.levels| ==> r.levels[i] == i
  {
  }

  /** `projects` holds exactly the packages flagged as projects, each as
      often as it occurs among the packages, and in package order: for any
      split of the packages, the projects of the first part come before
      those of the rest. */
  lemma ProjectsArePackages(d: Document)
    ensures var r := FromDocument(Some(d));
      && (forall q :: q in r.projects <==> q in r.packages && q.isProject)
      && (forall q :: multiset(r.projects)[q] == if q.isProject then multiset(r.packages)[q] else 0)
      && (forall n :: 0 <= n <= |r.packages| ==>
            r.projects == Projects(r.packages[..n]) + Projects(r.packages[n..]))
  {
    var ps := d.packages.GetOr([]);
    ProjectsMultiplicity(ps);
    forall n | 0 <= n <= |ps|
      ensures Projects(ps) == Projects(ps[..n]) + Projects(ps[n..])
    {
      assert ps[..n] + ps[n..] == ps;
      ProjectsAppend(ps[..n], ps[n..]);
    }
  }

  /** The declared and detected license lists are the key lists of the
      statistics objects, snake_case spelling first, empty when absent. */
  lemma LicenseNameLists(d: Document)
    ensures var r := FromDocument(Some(d));
      && (d.declaredLicenseStats.Resolve().None? ==> r.declaredLicenses == [])
      && (d.declaredLicenseStats.snake.Some? ==>
            r.declaredLicenses == StatsKeys(d.declaredLicenseStats.snake.value))
      && (d.declaredLicenseStats.snake.None? && d.declaredLicenseStats.camel.Some? ==>
            r.declaredLicenses == StatsKeys(d.declaredLicenseStats.camel.value))
      && (d.detectedLicenseStats.Resolve().None? ==> r.detectedLicenses == [])
      && (d.detectedLicenseStats.snake.Some? ==>
            r.detectedLicenses == StatsKeys(d.detectedLicenseStats.snake.value))
      && (d.detectedLicenseStats.snake.None? && d.detectedLicenseStats.camel.Some? ==>
            r.detectedLicenses == StatsKeys(d.detectedLicenseStats.camel.value))
  {
  }

  /** The reverse tree index exists exactly when the document had a
      dependency-trees section; it then holds an entry for each package
      index carried by some node of the forest, whose key sets are the
      `Set`s of the keys and parent keys the construction reported for it. */
  lemma TreeIndexFromForest(d: Document)
    ensures var r := FromDocument(Some(d));
      && (r.treeNodesByPackageIndex.Some? <==> d.dependencyTrees.Resolve().Some?)
      && r.dependencyTrees == Forest(d).nodes
      && (r.treeNodesByPackageIndex.Some? ==>
            Accumulates(r.treeNodesByPackageIndex.value, ReportsAll(r.dependencyTrees)))
  {
    var roots := d.dependencyTrees.Resolve().GetOr([]);
    BuildChildrenReportsPostOrder(roots, Root);
    ApplyFromEmpty(Forest(d).calls);
  }

  /** `hasIssues`/`hasRuleViolations` read only the statistics counters:
      they hold when some bucket is positive, whatever the issue and
      violation records say. */
  lemma HasFindingsTrustsStatistics(d: Document, issues: Option<seq<Issue>>, violations: Aliased<seq<RuleViolation>>)
    requires d.statistics.Some?
    ensures var r := FromDocument(Some(d));
      var r' := FromDocument(Some(d.(issues := issues, ruleViolations := violations)));
      && (r.HasIssues() <==> AnyOpen(d.statistics.value.openIssues))
      && (r.HasRuleViolations() <==> AnyOpen(d.statistics.value.openRuleViolations))
      && r'.HasIssues() == r.HasIssues()
      && r'.HasRuleViolations() == r.HasRuleViolations()
  {
  }
}
