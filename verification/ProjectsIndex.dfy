/**
 * The project browser's client over a fixed configuration: projects by name and by repository, and
 * the projects that depend on each repository, built in two passes over mutable project views.
 */
module ProjectsIndex {
  import opened Options
  import opened Sums

  datatype ProjectConfig = ProjectConfig(name: string, repo: string, dependsOn: seq<string>)

  /** One dependency: the project at position `from` depends on `repo`. */
  datatype Edge = Edge(from: nat, repo: string)

  // ------------------------------------------------------------- the configuration

  function OwnEdges(from: nat, dependsOn: seq<string>): (e: seq<Edge>)
    ensures |e| == |dependsOn|
    ensures forall j :: 0 <= j < |e| ==> e[j] == Edge(from, dependsOn[j])
  {
    seq(|dependsOn|, j requires 0 <= j < |dependsOn| => Edge(from, dependsOn[j]))
  }

  /** All dependencies, project by project, in the order they are listed. */
  function Edges(config: seq<ProjectConfig>): seq<Edge> {
    if config == [] then []
    else Edges(config[..|config| - 1]) + OwnEdges(|config| - 1, config[|config| - 1].dependsOn)
  }

  /** The positions of the projects that depend on the repository, once per listed dependency. */
  function DependentsOf(edges: seq<Edge>, repo: string): seq<nat> {
    if edges == [] then []
    else
      var earlier, last := DependentsOf(edges[..|edges| - 1], repo), edges[|edges| - 1];
      if last.repo == repo then earlier + [last.from] else earlier
  }

  function RepoKey(c: ProjectConfig): string { c.repo }

  function NameKey(c: ProjectConfig): string { c.name }

  /** Where the name or repository is configured last. */
  function LastAt(config: seq<ProjectConfig>, key: ProjectConfig -> string, x: string): (k: Option<nat>)
    ensures k.Some? ==> k.value < |config| && key(config[k.value]) == x
    ensures k.None? ==> forall i :: 0 <= i < |config| ==> key(config[i]) != x
    ensures k.Some? ==> forall i :: k.value < i < |config| ==> key(config[i]) != x
  {
    if config == [] then None
    else if key(config[|config| - 1]) == x then Some(|config| - 1)
    else LastAt(config[..|config| - 1], key, x)
  }

  predicate Known(config: seq<ProjectConfig>, repo: string) { LastAt(config, RepoKey, repo).Some? }

  predicate DependenciesKnown(config: seq<ProjectConfig>, p: ProjectConfig) {
    forall r :: r in p.dependsOn ==> Known(config, r)
  }

  /** Every dependency of these projects is a configured repository. */
  predicate AllKnown(config: seq<ProjectConfig>, projects: seq<ProjectConfig>) {
    forall p :: p in projects ==> DependenciesKnown(config, p)
  }

  // ------------------------------------------------------------------- views

  class ProjectView {
    const name: string
    const repo: string
    const dependsOn: seq<string>
    var hasDependents: bool

    constructor (c: ProjectConfig)
      ensures name == c.name && repo == c.repo && dependsOn == c.dependsOn && !hasDependents
    {
      name, repo, dependsOn := c.name, c.repo, c.dependsOn;
      hasDependents := false;
    }
  }

  /** `list` is the views at the given positions, in order, and the mark says whether there are any. */
  ghost predicate IsRecorded(list: seq<ProjectView>, mark: bool, views: seq<ProjectView>, positions: seq<nat>) {
    && |list| == |positions|
    && (forall k :: 0 <= k < |positions| ==> positions[k] < |views| && list[k] == views[positions[k]])
    && (mark <==> list != [])
  }

  lemma RecordedAppend(list: seq<ProjectView>, mark: bool, views: seq<ProjectView>, positions: seq<nat>, from: nat)
    requires IsRecorded(list, mark, views, positions) && from < |views|
    ensures IsRecorded(list + [views[from]], true, views, positions + [from])
  {
  }

  /** Each key leads to the project configured last for it, and only configured keys lead anywhere. */
  ghost predicate LeadsToLast(index: map<string, ProjectView>, views: seq<ProjectView>, prefix: seq<ProjectConfig>,
                              key: ProjectConfig -> string) {
    && |prefix| <= |views|
    && (forall x :: x in index <==> LastAt(prefix, key, x).Some?)
    && (forall x :: x in index ==> index[x] == views[LastAt(prefix, key, x).value])
  }

  lemma LeadsAppend(index: map<string, ProjectView>, views: seq<ProjectView>, config: seq<ProjectConfig>, i: nat,
                    key: ProjectConfig -> string)
    requires i < |config| == |views| && LeadsToLast(index, views, config[..i], key)
    ensures LeadsToLast(index[key(config[i]) := views[i]], views, config[..i + 1], key)
  {
    assert config[..i + 1][..i] == config[..i];
  }

  lemma LeadsNowhere(views: seq<ProjectView>, key: ProjectConfig -> string)
    ensures LeadsToLast(map[], views, [], key)
  {
  }

  class FakeProjectsClient {
    const config: seq<ProjectConfig>
    var projects: seq<ProjectView>
    var byNameMap: map<string, ProjectView>
    var byRepoMap: map<string, ProjectView>
    var dependentsMap: map<string, seq<ProjectView>>

    constructor (config: seq<ProjectConfig>)
      ensures this.config == config && projects == []
      ensures byNameMap == map[] && byRepoMap == map[] && dependentsMap == map[]
    {
      this.config := config;
      projects, byNameMap, byRepoMap, dependentsMap := [], map[], map[], map[];
    }

    /** One view for each configured project, all different objects. */
    ghost predicate Mirrors(views: seq<ProjectView>) {
      && |views| == |config|
      && (forall i :: 0 <= i < |views| ==> views[i].repo == config[i].repo && views[i].name == config[i].name
                                           && views[i].dependsOn == config[i].dependsOn)
      && (forall i, j :: 0 <= i < j < |views| ==> views[i] != views[j])
    }

    ghost predicate KeysIndexed(prefix: seq<ProjectConfig>)
      reads this`byRepoMap, this`byNameMap, this`projects
    {
      LeadsToLast(byRepoMap, projects, prefix, RepoKey) && LeadsToLast(byNameMap, projects, prefix, NameKey)
    }

    /** The dependents recorded for r are those of the given edges, and its view is marked if there are any. */
    ghost predicate Recorded(done: seq<Edge>, r: string)
      requires r in byRepoMap && r in dependentsMap
      reads this, byRepoMap[r]
    {
      IsRecorded(dependentsMap[r], byRepoMap[r].hasDependents, projects, DependentsOf(done, r))
    }

    ghost predicate EdgesRecorded(done: seq<Edge>)
      reads this, set r | r in byRepoMap :: byRepoMap[r]
    {
      && dependentsMap.Keys == byRepoMap.Keys
      && forall r :: r in byRepoMap ==> Recorded(done, r)
    }

    method CreateViews() returns (views: seq<ProjectView>)
      ensures Mirrors(views) && forall k :: 0 <= k < |views| ==> fresh(views[k]) && !views[k].hasDependents
    {
      views := [];
      for i := 0 to |config|
        invariant |views| == i
        invariant forall k :: 0 <= k < i ==> fresh(views[k]) && !views[k].hasDependents
        invariant forall k :: 0 <= k < i ==> views[k].repo == config[k].repo && views[k].name == config[k].name
                                             && views[k].dependsOn == config[k].dependsOn
        invariant forall k, j :: 0 <= k < j < i ==> views[k] != views[j]
      {
        var view := new ProjectView(config[i]);
        views := views + [view];
      }
    }

    /** The first pass: names, repositories, and an empty list of dependents for each. */
    method IndexProjects()
      requires Mirrors(projects) && byNameMap == map[] && byRepoMap == map[] && dependentsMap == map[]
      requires forall k :: 0 <= k < |projects| ==> !projects[k].hasDependents
      modifies this`byNameMap, this`byRepoMap, this`dependentsMap
      ensures KeysIndexed(config) && EdgesRecorded([])
    {
      hide LeadsToLast, LastAt;
      LeadsNowhere(projects, RepoKey);
      LeadsNowhere(projects, NameKey);
      for i := 0 to |config|
        invariant KeysIndexed(config[..i]) && dependentsMap.Keys == byRepoMap.Keys
        invariant forall r :: r in dependentsMap ==> dependentsMap[r] == []
      {
        var project := projects[i];
        LeadsAppend(byNameMap, projects, config, i, NameKey);
        LeadsAppend(byRepoMap, projects, config, i, RepoKey);
        byNameMap := byNameMap[project.name := project];
        byRepoMap := byRepoMap[project.repo := project];
        dependentsMap := dependentsMap[project.repo := []];
      }
      assert config[..|config|] == config;
      ViewsAreTheirRepos();
    }

    /** One dependency; an unknown repository has no view to mark and throws. */
    method RecordEdge(project: ProjectView, repo: string, ghost done: seq<Edge>, ghost e: Edge) returns (ok: bool)
      requires Mirrors(projects) && KeysIndexed(config) && EdgesRecorded(done)
      requires e.repo == repo && e.from < |projects| && project == projects[e.from]
      modifies this`dependentsMap, projects
      ensures ok <==> Known(config, repo)
      ensures EdgesRecorded(if ok then done + [e] else done)
    {
      hide LastAt, DependentsOf, IsRecorded, LeadsToLast, Known;
      ViewsAreTheirRepos();
      hide KeysIndexed, Mirrors;
      if repo !in byRepoMap {
        return false;
      }
      assert Recorded(done, repo);
      RecordedAppend(dependentsMap[repo], byRepoMap[repo].hasDependents, projects, DependentsOf(done, repo), e.from);
      byRepoMap[repo].hasDependents := true;
      dependentsMap := dependentsMap[repo := dependentsMap[repo] + [project]];
      forall r | r in byRepoMap ensures Recorded(done + [e], r) {
        DependentsAppend(done, e, r);
        assert old(Recorded(done, r));
        if r != repo { assert byRepoMap[r] != byRepoMap[repo]; }
      }
      return true;
    }

    lemma ViewsAreTheirRepos()
      requires Mirrors(projects) && KeysIndexed(config)
      ensures forall r :: r in byRepoMap <==> Known(config, r)
      ensures forall r :: r in byRepoMap ==> byRepoMap[r].repo == r && byRepoMap[r] in projects
    {
    }

    /** The dependencies of one project, in order, up to the first unknown one. */
    method RecordProject(i: nat, ghost done: seq<Edge>) returns (ok: bool)
      requires Mirrors(projects) && KeysIndexed(config) && EdgesRecorded(done) && i < |projects|
      modifies this`dependentsMap, projects
      ensures ok <==> DependenciesKnown(config, config[i])
      ensures ok ==> EdgesRecorded(done + OwnEdges(i, config[i].dependsOn))
    {
      hide LastAt, EdgesRecorded, KeysIndexed;
      var project := projects[i];
      var dependsOn := project.dependsOn;
      ghost var own := OwnEdges(i, dependsOn);
      assert done + own[..0] == done;
      for j := 0 to |dependsOn|
        invariant EdgesRecorded(done + own[..j])
        invariant forall k :: 0 <= k < j ==> Known(config, dependsOn[k])
      {
        var recorded := RecordEdge(project, dependsOn[j], done + own[..j], own[j]);
        if !recorded {
          assert dependsOn[j] in dependsOn;
          return false;
        }
        assert done + own[..j] + [own[j]] == done + own[..j + 1];
      }
      assert own[..|dependsOn|] == own;
      return true;
    }

    /**
     * Both passes.  It fails exactly if a dependency names an unknown repository.  Otherwise the
     * dependents of each repository are the projects depending on it, once per dependency and in
     * order, and the view found for it is marked exactly if there are any.
     */
    method LoadConfig() returns (ok: bool)
      requires projects == [] && byNameMap == map[] && byRepoMap == map[] && dependentsMap == map[]
      modifies this
      ensures Mirrors(projects) && KeysIndexed(config)
      ensures ok <==> forall p, r :: p in config && r in p.dependsOn ==> exists q :: q in config && q.repo == r
      ensures ok ==> EdgesRecorded(Edges(config))
    {
      AllKnownMeans(config);
      hide EdgesRecorded, KeysIndexed, Edges, AllKnown, DependenciesKnown;
      projects := CreateViews();
      IndexProjects();
      NoProjects(config);
      for i := 0 to |projects|
        invariant Mirrors(projects) && KeysIndexed(config) && (forall k :: 0 <= k < |projects| ==> fresh(projects[k]))
        invariant EdgesRecorded(Edges(config[..i])) && AllKnown(config, config[..i])
      {
        var recorded := RecordProject(i, Edges(config[..i]));
        NextProject(config, i);
        if !recorded {
          return false;
        }
      }
      assert config[..|config|] == config;
      return true;
    }

    method ByRepo(repo: string) returns (r: Option<ProjectView>)
      requires Mirrors(projects) && KeysIndexed(config)
      ensures r == if Known(config, repo) then Some(projects[LastAt(config, RepoKey, repo).value]) else None
      ensures r.None? <==> forall p :: p in config ==> p.repo != repo
      ensures r.Some? ==> exists k :: && 0 <= k < |config| && config[k].repo == repo && r.value == projects[k]
                                      && forall j :: k < j < |config| ==> config[j].repo != repo
    {
      KnownMeans(config, repo);
      r := if repo in byRepoMap then Some(byRepoMap[repo]) else None;
    }

    method ByName(name: string) returns (r: Option<ProjectView>)
      requires Mirrors(projects) && KeysIndexed(config)
      ensures r.None? <==> forall p :: p in config ==> p.name != name
      ensures r.Some? ==> exists k :: && 0 <= k < |config| && config[k].name == name && r.value == projects[k]
                                      && forall j :: k < j < |config| ==> config[j].name != name
    {
      NamedMeans(config, name);
      r := if name in byNameMap then Some(byNameMap[name]) else None;
    }

    /** The dependents of a repository; the view found for it is marked exactly if there are any. */
    method Dependents(repo: string) returns (r: Option<seq<ProjectView>>)
      requires Mirrors(projects) && KeysIndexed(config) && EdgesRecorded(Edges(config))
      ensures r.None? <==> forall p :: p in config ==> p.repo != repo
      ensures r.Some? ==> exists positions :: DependOn(config, repo, positions) && Picked(r.value, projects, positions)
      ensures r.Some? ==> exists k :: && 0 <= k < |config| && config[k].repo == repo
                                      && (forall j :: k < j < |config| ==> config[j].repo != repo)
                                      && (projects[k].hasDependents <==> r.value != [])
    {
      KnownMeans(config, repo);
      if repo !in dependentsMap {
        return None;
      }
      assert Recorded(Edges(config), repo);
      DependentsAre(config, repo);
      assert Picked(dependentsMap[repo], projects, DependentsOf(Edges(config), repo));
      assert byRepoMap[repo] == projects[LastAt(config, RepoKey, repo).value];
      return Some(dependentsMap[repo]);
    }
  }

  /** The views at the positions, in order. */
  ghost predicate Picked(list: seq<ProjectView>, views: seq<ProjectView>, positions: seq<nat>) {
    && |list| == |positions|
    && forall k :: 0 <= k < |list| ==> positions[k] < |views| && list[k] == views[positions[k]]
  }

  /** The positions of the projects that depend on the repository: in order, once for each time one lists it. */
  ghost predicate DependOn(config: seq<ProjectConfig>, repo: string, positions: seq<nat>) {
    && (forall k :: 0 <= k < |positions| ==> positions[k] < |config|)
    && (forall j, k :: 0 <= j < k < |positions| ==> positions[j] <= positions[k])
    && (forall i :: 0 <= i < |config| ==> multiset(positions)[i] == multiset(config[i].dependsOn)[repo])
  }

  lemma DependentsAre(config: seq<ProjectConfig>, repo: string)
    ensures DependOn(config, repo, DependentsOf(Edges(config), repo))
  {
    hide Edges, DependentsOf;
    DependentsInOrder(config, repo);
    forall i: nat | i < |config|
      ensures multiset(DependentsOf(Edges(config), repo))[i] == multiset(config[i].dependsOn)[repo]
    {
      DependentsInvert(config, repo, i);
    }
  }

  lemma NamedMeans(config: seq<ProjectConfig>, name: string)
    ensures LastAt(config, NameKey, name).Some? <==> exists q :: q in config && q.name == name
    ensures forall i :: 0 <= i < |config| ==> NameKey(config[i]) == config[i].name
  {
    if LastAt(config, NameKey, name).Some? {
      var k := LastAt(config, NameKey, name).value;
      assert config[k] in config && NameKey(config[k]) == name;
    }
  }

  lemma KnownMeans(config: seq<ProjectConfig>, repo: string)
    ensures Known(config, repo) <==> exists q :: q in config && q.repo == repo
    ensures forall i :: 0 <= i < |config| ==> RepoKey(config[i]) == config[i].repo
  {
    if Known(config, repo) {
      var k := LastAt(config, RepoKey, repo).value;
      assert config[k] in config && RepoKey(config[k]) == repo;
    }
  }

  lemma AllKnownMeans(config: seq<ProjectConfig>)
    ensures AllKnown(config, config)
            <==> forall p, r :: p in config && r in p.dependsOn ==> exists q :: q in config && q.repo == r
  {
    hide Known;
    forall r ensures Known(config, r) <==> exists q :: q in config && q.repo == r { KnownMeans(config, r); }
  }

  lemma NoProjects(config: seq<ProjectConfig>)
    ensures Edges(config[..0]) == [] && AllKnown(config, config[..0])
  {
  }

  lemma NextProject(config: seq<ProjectConfig>, i: nat)
    requires i < |config|
    ensures Edges(config[..i + 1]) == Edges(config[..i]) + OwnEdges(i, config[i].dependsOn)
    ensures AllKnown(config, config[..i + 1]) <==> AllKnown(config, config[..i]) && DependenciesKnown(config, config[i])
    ensures AllKnown(config, config) ==> DependenciesKnown(config, config[i])
  {
    hide DependenciesKnown;
    assert config[..i + 1][..i] == config[..i] && config[..i + 1] == config[..i] + [config[i]];
    assert config[i] in config;
  }

  predicate EdgesKnown(config: seq<ProjectConfig>, edges: seq<Edge>) {
    forall e :: e in edges ==> Known(config, e.repo)
  }

  lemma EdgesKnownConcat(config: seq<ProjectConfig>, a: seq<Edge>, b: seq<Edge>)
    ensures EdgesKnown(config, a + b) <==> EdgesKnown(config, a) && EdgesKnown(config, b)
  {
    hide Known;
    assert forall e :: e in a + b <==> e in a || e in b;
  }

  lemma OwnEdgesKnown(config: seq<ProjectConfig>, n: nat, p: ProjectConfig)
    ensures EdgesKnown(config, OwnEdges(n, p.dependsOn)) <==> DependenciesKnown(config, p)
  {
    hide Known;
    var own := OwnEdges(n, p.dependsOn);
    forall r | r in p.dependsOn ensures Edge(n, r) in own {
      var j :| 0 <= j < |p.dependsOn| && p.dependsOn[j] == r;
      assert own[j] == Edge(n, r);
    }
    assert forall e :: e in own ==> e.repo in p.dependsOn;
  }

  lemma {:induction false} AllKnownIff(config: seq<ProjectConfig>, n: nat)
    requires n <= |config|
    ensures EdgesKnown(config, Edges(config[..n])) <==> AllKnown(config, config[..n])
  {
    NoProjects(config);
    if n == 0 {
    } else {
      hide Edges, EdgesKnown, AllKnown, DependenciesKnown;
      AllKnownIff(config, n - 1);
      NextProject(config, n - 1);
      EdgesKnownConcat(config, Edges(config[..n - 1]), OwnEdges(n - 1, config[n - 1].dependsOn));
      OwnEdgesKnown(config, n - 1, config[n - 1]);
    }
  }

  lemma DependentsAppend(edges: seq<Edge>, e: Edge, repo: string)
    ensures DependentsOf(edges + [e], repo)
            == if e.repo == repo then DependentsOf(edges, repo) + [e.from] else DependentsOf(edges, repo)
  {
    assert (edges + [e])[..|edges|] == edges;
  }

  // ---------------------------------------------------------- inverse relation

  function Times(s: seq<string>, x: string): nat { multiset(s)[x] }

  lemma {:induction false} DependentsConcat(a: seq<Edge>, b: seq<Edge>, repo: string)
    ensures DependentsOf(a + b, repo) == DependentsOf(a, repo) + DependentsOf(b, repo)
  {
    if b == [] {
      assert a + b == a;
    } else {
      assert (a + b)[..|a + b| - 1] == a + b[..|b| - 1];
      DependentsConcat(a, b[..|b| - 1], repo);
    }
  }

  lemma {:induction false} OwnDependents(from: nat, dependsOn: seq<string>, repo: string, i: nat)
    ensures multiset(DependentsOf(OwnEdges(from, dependsOn), repo))[i]
            == if i == from then Times(dependsOn, repo) else 0
  {
    if dependsOn == [] {
    } else {
      var front := dependsOn[..|dependsOn| - 1];
      assert dependsOn == front + [dependsOn[|dependsOn| - 1]];
      assert OwnEdges(from, dependsOn)[..|front|] == OwnEdges(from, front);
      OwnDependents(from, front, repo, i);
    }
  }

  /** Project i is among the dependents of a repository as often as it lists it, and no other way. */
  lemma {:induction false} DependentsInvert(config: seq<ProjectConfig>, repo: string, i: nat)
    ensures multiset(DependentsOf(Edges(config), repo))[i]
            == if i < |config| then Times(config[i].dependsOn, repo) else 0
  {
    if config == [] {
    } else {
      var front, n := config[..|config| - 1], |config| - 1;
      DependentsInvert(front, repo, i);
      DependentsConcat(Edges(front), OwnEdges(n, config[n].dependsOn), repo);
      OwnDependents(n, config[n].dependsOn, repo, i);
    }
  }

  /** The dependents of a repository come in the order in which the projects are configured. */
  lemma {:induction false} DependentsInOrder(config: seq<ProjectConfig>, repo: string)
    ensures var d := DependentsOf(Edges(config), repo);
            && (forall k :: 0 <= k < |d| ==> d[k] < |config|)
            && forall j, k :: 0 <= j < k < |d| ==> d[j] <= d[k]
  {
    if config == [] {
    } else {
      var front, n := config[..|config| - 1], |config| - 1;
      var own := OwnEdges(n, config[n].dependsOn);
      DependentsInOrder(front, repo);
      DependentsConcat(Edges(front), own, repo);
      OwnPositions(own, repo, n);
      assert Edges(config) == Edges(front) + own;
      var d, earlier := DependentsOf(Edges(config), repo), DependentsOf(Edges(front), repo);
      assert d == earlier + DependentsOf(own, repo);
      assert forall k :: 0 <= k < |d| ==> d[k] == if k < |earlier| then earlier[k] else n;
      forall j, k | 0 <= j < k < |d| ensures d[j] <= d[k] { assert j < |earlier| ==> earlier[j] < n; }
    }
  }

  lemma {:induction false} OwnPositions(edges: seq<Edge>, repo: string, n: nat)
    requires forall e :: e in edges ==> e.from == n
    ensures forall k :: 0 <= k < |DependentsOf(edges, repo)| ==> DependentsOf(edges, repo)[k] == n
  {
    if edges == [] {
    } else {
      assert edges[|edges| - 1] in edges;
      OwnPositions(edges[..|edges| - 1], repo, n);
    }
  }

  function RepoOf(e: Edge): string { e.repo }

  function OneEach(e: Edge): int { 1 }

  function ListSize(edges: seq<Edge>): string -> int { r => |DependentsOf(edges, r)| }

  lemma {:induction false} DependentsCount(edges: seq<Edge>, repo: string)
    ensures |DependentsOf(edges, repo)| == ByKey(edges, RepoOf, OneEach)(repo)
  {
    if edges == [] {
    } else {
      var front, last := edges[..|edges| - 1], edges[|edges| - 1];
      DependentsCount(front, repo);
      assert edges == front + [last];
      DependentsAppend(front, last, repo);
      ByKeyAppend(front, last, RepoOf, OneEach, repo);
    }
  }

  lemma {:induction false} CountEdges(edges: seq<Edge>)
    ensures Total(edges, OneEach) == |edges|
  {
    if edges == [] {
    } else {
      CountEdges(edges[..|edges| - 1]);
    }
  }

  lemma EdgesAreKnown(config: seq<ProjectConfig>)
    requires AllKnown(config, config)
    ensures forall e :: e in Edges(config) ==> Known(config, e.repo)
  {
    hide Known, Edges;
    assert config[..|config|] == config;
    AllKnownIff(config, |config|);
  }

  /** Over any listing of the known repositories the lists of dependents hold each dependency once. */
  lemma IndexSizes(config: seq<ProjectConfig>, repos: seq<string>)
    requires AllKnown(config, config) && Distinct(repos) && forall r :: Known(config, r) ==> r in repos
    ensures Total(repos, ListSize(Edges(config))) == |Edges(config)|
  {
    hide Edges, DependentsOf, Known, AllKnown, Total;
    var edges := Edges(config);
    EdgesAreKnown(config);
    forall r | r in repos ensures ListSize(edges)(r) == ByKey(edges, RepoOf, OneEach)(r) { DependentsCount(edges, r); }
    TotalSame(repos, ListSize(edges), ByKey(edges, RepoOf, OneEach));
    TotalByKey(edges, repos, RepoOf, OneEach);
    CountEdges(edges);
  }
}
