/**
 The repository host filter of `collectFeedRepositories`
 (Tasks/Maven/mavenutil.ts:209-258): it walks
 `projects.project[*].repositories[*].repository[*]` of a parsed effective
 POM, unwrapping one-element arrays at each level, and keeps the `id` of
 every repository whose non-empty URL, lowercased, contains the collection
 hostname or the package hostname.

 The walk is specified in two independent halves: `Walk` lists the
 repository values the loops visit, in order, and `Kept` keeps those that
 `Matches` accepts. The loops of `SelectRepos`, `ParseRepos` and
 `CollectFeedRepositories` compute the composition of the two.

 `url.parse`, the build variable and `assumeNuGetUriPrefixes` are outside
 the model: their results arrive as the hostname parameters.
 */
module RepositoryFilter {
  import opened JsonTree
  import opened Text

  /** The two hostnames a repository URL is matched against. */
  datatype Hosts = Hosts(collection: string, package: string)

  /** The hostnames as lines 220-226 compute them. `collectionHost` and
      `packageUrlHost` are the `hostname` that `url.parse` yields for the
      collection URL and for `packageUrl[1]` (`None` for `null`);
      `packageUrl` is `packageUrl[1]` itself (`None` for `undefined`). */
  function Hostnames(collectionHost: Option<string>, packageUrl: Option<string>,
                     packageUrlHost: Option<string>): (r: Result<Hosts>)
    // `null.toLowerCase()` when a URL has no host
    ensures r.Err? <==> collectionHost.None? || (TruthyUrl(packageUrl) && packageUrlHost.None?)
    ensures r.Ok? ==> r.value.collection == ToLower(collectionHost.value)
    // the parsed package hostname is computed and discarded: `packageUrl[1]` is used raw
    ensures r.Ok? && TruthyUrl(packageUrl) ==> r.value.package == packageUrl.value
    ensures r.Ok? && !TruthyUrl(packageUrl) ==> r.value.package == r.value.collection
  {
    match collectionHost
    case None => Err(NullDereference)
    case Some(c) =>
      if !TruthyUrl(packageUrl) then Ok(Hosts(ToLower(c), ToLower(c)))
      else if packageUrlHost.None? then Err(NullDereference)
      else Ok(Hosts(ToLower(c), packageUrl.value))
  }

  /** The hostnames with the parsed package hostname applied, as the
      discarded expression on line 223 evidently intends. */
  function IntendedHostnames(collectionHost: Option<string>, packageUrl: Option<string>,
                             packageUrlHost: Option<string>): (r: Result<Hosts>)
    ensures r.Err? <==> collectionHost.None? || (TruthyUrl(packageUrl) && packageUrlHost.None?)
    ensures r.Ok? ==> r.value.collection == ToLower(collectionHost.value)
    ensures r.Ok? && TruthyUrl(packageUrl) ==> r.value.package == ToLower(packageUrlHost.value)
    ensures r.Ok? && !TruthyUrl(packageUrl) ==> r.value.package == r.value.collection
  {
    match collectionHost
    case None => Err(NullDereference)
    case Some(c) =>
      if !TruthyUrl(packageUrl) then Ok(Hosts(ToLower(c), ToLower(c)))
      else if packageUrlHost.None? then Err(NullDereference)
      else Ok(Hosts(ToLower(c), ToLower(packageUrlHost.value)))
  }

  /** `packageUrl[1]` is a non-empty string. */
  predicate TruthyUrl(u: Option<string>) {
    u.Some? && u.value != ""
  }

  /** `x.k` on a node known not to be `null`: an own property or `undefined`. */
  function Prop(node: Val, k: string): Option<Val> {
    if node.Obj? && k in node.fields then Some(node.fields[k]) else None
  }

  /** The `{id: ...}` record pushed for a kept repository (lines 238-242); an
      `undefined` id leaves the record without the property. */
  function Info(node: Val): (r: Val)
    ensures r.Obj? && r.fields.Keys <= {"id"}
    ensures "id" in r.fields <==> Unwrap(Prop(node, "id")).Some?
    // a scalar or object id is copied as it is
    ensures node.Obj? && "id" in node.fields && !node.fields["id"].Arr? ==>
              r.fields == map["id" := node.fields["id"]]
    // an array id contributes its first element
    ensures node.Obj? && "id" in node.fields && node.fields["id"].Arr? && |node.fields["id"].items| > 0 ==>
              r.fields == map["id" := node.fields["id"].items[0]]
  {
    Obj(Field("id", Unwrap(Prop(node, "id"))))
  }

  /** The repository's URL string, after both unwrappings (lines 233-234). */
  ghost function UrlString(repo: Val): Option<string> {
    var node := Unwrap(Some(repo));
    if node.Some? then
      var url := Unwrap(Prop(node.value, "url"));
      if url.Some? && url.value.Str? then Some(url.value.s) else None
    else None
  }

  /** The repository is kept: its URL is a non-empty string whose lower-case
      form contains one of the hostnames. */
  ghost predicate Matches(repo: Val, hosts: Hosts) {
    var url := UrlString(repo);
    && url.Some? && url.value != ""
    && (Contains(ToLower(url.value), hosts.collection) || Contains(ToLower(url.value), hosts.package))
  }

  /** Visiting the repository throws: it is `undefined` or `null` (reading
      `url`), or its URL is truthy but not a string (`toLowerCase` is not a
      function). */
  ghost predicate SelectFaults(repo: Val) {
    var node := Unwrap(Some(repo));
    || node.None? || node.value.Null?
    || (var url := Unwrap(Prop(node.value, "url")); TruthyOpt(url) && !url.value.Str?)
  }

  /** The record a kept repository contributes. */
  function InfoOf(repo: Val): Val {
    match Unwrap(Some(repo))
    case Some(node) => Info(node)
    case None => Info(Null)
  }

  /** One iteration of the inner `for ... of` (lines 233-243): the record to
      push, if any. */
  function Select(repo: Val, hosts: Hosts): (r: Result<Option<Val>>)
    ensures r.Err? <==> SelectFaults(repo)
    ensures r.Ok? ==> (r.value.Some? <==> Matches(repo, hosts))
    ensures r.Ok? && r.value.Some? ==> r.value.value == InfoOf(repo)
  {
    var node := Unwrap(Some(repo));
    match GetOpt(node, "url")
    case Err(f) => Err(f)
    case Ok(u) =>
      var url := Unwrap(u);
      if !TruthyOpt(url) then Ok(None)
      else if !url.value.Str? then Err(NotAFunction)
      else
        var lower := ToLower(url.value.s);
        if Includes(lower, hosts.collection) || Includes(lower, hosts.package)
        then Ok(Some(Info(node.value)))
        else Ok(None)
  }

  /** No repository of `xs` throws when visited. */
  ghost predicate NoFault(xs: seq<Val>) {
    forall v :: v in xs ==> !SelectFaults(v)
  }

  /** The records of the repositories `Matches` accepts, in order, without
      removing repeats: the reference the loops are checked against. */
  ghost function Kept(xs: seq<Val>, hosts: Hosts): seq<Val> {
    if |xs| == 0 then []
    else (if Matches(xs[0], hosts) then [InfoOf(xs[0])] else []) + Kept(xs[1..], hosts)
  }

  /** Keeping distributes over concatenation: order is preserved. */
  lemma {:induction false} KeptAppend(a: seq<Val>, b: seq<Val>, hosts: Hosts)
    ensures Kept(a + b, hosts) == Kept(a, hosts) + Kept(b, hosts)
    decreases |a|
  {
    if |a| == 0 {
      assert a + b == b;
    } else {
      assert (a + b)[0] == a[0];
      assert (a + b)[1..] == a[1..] + b;
      KeptAppend(a[1..], b, hosts);
    }
  }

  /** A record is kept exactly when some accepted repository contributes it. */
  lemma {:induction false} KeptExactly(xs: seq<Val>, hosts: Hosts, v: Val)
    ensures v in Kept(xs, hosts) <==> exists i :: 0 <= i < |xs| && Matches(xs[i], hosts) && v == InfoOf(xs[i])
    decreases |xs|
  {
    if |xs| > 0 {
      KeptExactly(xs[1..], hosts, v);
      if v in Kept(xs[1..], hosts) {
        var i :| 0 <= i < |xs[1..]| && Matches(xs[1..][i], hosts) && v == InfoOf(xs[1..][i]);
        assert xs[i + 1] == xs[1..][i];
      }
      if exists i :: 0 <= i < |xs| && Matches(xs[i], hosts) && v == InfoOf(xs[i]) {
        var i :| 0 <= i < |xs| && Matches(xs[i], hosts) && v == InfoOf(xs[i]);
        if i > 0 {
          assert xs[1..][i - 1] == xs[i];
        }
      }
    }
  }

  /** Repeats are not removed: a repository listed twice is kept twice. */
  lemma RepeatedRepositoryKeptTwice(x: Val, hosts: Hosts)
    requires Matches(x, hosts)
    ensures Kept([x, x], hosts) == [InfoOf(x), InfoOf(x)]
  {
    assert [x][1..] == [];
    assert Kept([x], hosts) == [InfoOf(x)];
    assert [x, x][1..] == [x];
  }

  /** Keeping one more repository. */
  lemma KeptSnoc(xs: seq<Val>, i: nat, hosts: Hosts)
    requires i < |xs|
    ensures Kept(xs[..i + 1], hosts) == Kept(xs[..i], hosts) + (if Matches(xs[i], hosts) then [InfoOf(xs[i])] else [])
  {
    assert xs[..i + 1] == xs[..i] + [xs[i]];
    KeptAppend(xs[..i], [xs[i]], hosts);
    assert [xs[i]][1..] == [];
  }

  /** The inner loop over `r.repository` (lines 232-244). */
  method SelectRepos(xs: seq<Val>, hosts: Hosts) returns (r: Result<seq<Val>>)
    ensures r.Ok? <==> NoFault(xs)
    ensures r.Ok? ==> r.value == Kept(xs, hosts)
  {
    var acc: seq<Val> := [];
    var i := 0;
    while i < |xs|
      invariant 0 <= i <= |xs|
      invariant NoFault(xs[..i])
      invariant acc == Kept(xs[..i], hosts)
    {
      KeptSnoc(xs, i, hosts);
      match Select(xs[i], hosts)
      case Err(f) =>
        assert xs[i] in xs;
        return Err(f);
      case Ok(o) =>
        if o.Some? {
          acc := acc + [o.value];
        }
      i := i + 1;
    }
    assert xs[..i] == xs;
    return Ok(acc);
  }

  /** Fault-propagating concatenation: the first fault wins. */
  function Join(x: Result<seq<Val>>, y: Result<seq<Val>>): (r: Result<seq<Val>>)
    ensures r.Ok? <==> x.Ok? && y.Ok?
    ensures r.Ok? ==> r.value == x.value + y.value
    ensures x.Err? ==> r == x
  {
    match x
    case Err(f) => Err(f)
    case Ok(a) =>
      match y
      case Err(f) => Err(f)
      case Ok(b) => Ok(a + b)
  }

  /** The concatenation of `f` over `ws`, failing at the first fault. */
  function Flatten(ws: seq<Val>, f: Val -> Result<seq<Val>>): Result<seq<Val>>
    decreases |ws|
  {
    if |ws| == 0 then Ok([]) else Join(f(ws[0]), Flatten(ws[1..], f))
  }

  lemma {:induction false} FlattenAppend(a: seq<Val>, b: seq<Val>, f: Val -> Result<seq<Val>>)
    ensures Flatten(a + b, f) == Join(Flatten(a, f), Flatten(b, f))
    decreases |a|
  {
    if |a| == 0 {
      assert a + b == b;
      if Flatten(b, f).Ok? {
        assert [] + Flatten(b, f).value == Flatten(b, f).value;
      }
    } else {
      assert (a + b)[0] == a[0];
      assert (a + b)[1..] == a[1..] + b;
      FlattenAppend(a[1..], b, f);
      JoinAssociates(f(a[0]), Flatten(a[1..], f), Flatten(b, f));
    }
  }

  lemma JoinAssociates(x: Result<seq<Val>>, y: Result<seq<Val>>, z: Result<seq<Val>>)
    ensures Join(x, Join(y, z)) == Join(Join(x, y), z)
  {
    if x.Ok? && y.Ok? && z.Ok? {
      assert x.value + (y.value + z.value) == x.value + y.value + z.value;
    }
  }

  /** A successful flattening starts with the flattening of every prefix. */
  lemma FlattenPrefix(ws: seq<Val>, k: nat, f: Val -> Result<seq<Val>>)
    requires k <= |ws|
    requires Flatten(ws, f).Ok?
    ensures Flatten(ws[..k], f).Ok? && Flatten(ws[k..], f).Ok?
    ensures Flatten(ws, f).value == Flatten(ws[..k], f).value + Flatten(ws[k..], f).value
  {
    assert ws == ws[..k] + ws[k..];
    FlattenAppend(ws[..k], ws[k..], f);
  }

  /** Flattening one more element. */
  lemma FlattenSnoc(ws: seq<Val>, i: nat, f: Val -> Result<seq<Val>>)
    requires i < |ws|
    ensures Flatten(ws[..i + 1], f) == Join(Flatten(ws[..i], f), f(ws[i]))
  {
    assert ws[..i + 1] == ws[..i] + [ws[i]];
    FlattenAppend(ws[..i], [ws[i]], f);
    assert [ws[i]][1..] == [];
    assert Flatten([ws[i]], f) == Join(f(ws[i]), Ok([]));
    if f(ws[i]).Ok? {
      assert f(ws[i]).value + [] == f(ws[i]).value;
    }
  }

  /** The repositories one element of `project.repositories` lists (lines 230-232):
      reading `repository` throws on an `undefined` or `null` element. */
  function WrapperRepositories(w: Val): (r: Result<seq<Val>>)
    ensures r.Err? <==> (var node := Unwrap(Some(w));
                         node.None? || node.value.Null? || (TruthyOpt(Prop(node.value, "repository"))
                                                            && node.value.fields["repository"].Obj?))
    // otherwise a falsy `repository` lists nothing, and a truthy one lists what `for ... of` visits
    ensures var node := Unwrap(Some(w));
            node.Some? && !node.value.Null? ==>
              var rep := Prop(node.value, "repository");
              && (!TruthyOpt(rep) ==> r == Ok([]))
              && (TruthyOpt(rep) && rep.value.Arr? ==> r == Ok(rep.value.items))
              && (TruthyOpt(rep) ==> r == Iterate(rep))
  {
    var node := Unwrap(Some(w));
    match GetOpt(node, "repository")
    case Err(f) => Err(f)
    case Ok(rep) => if !TruthyOpt(rep) then Ok([]) else Iterate(rep)
  }

  /** The repository values `parseRepos(project)` visits, in order (lines 228-234). */
  function Visited(project: Val): Result<seq<Val>> {
    if !Truthy(project) then Ok([])
    else
      var repositories := Prop(project, "repositories");
      if !TruthyOpt(repositories) then Ok([])
      else
        match Iterate(repositories)
        case Err(f) => Err(f)
        case Ok(ws) => Flatten(ws, WrapperRepositories)
  }

  /** The loop over `project.repositories` with its inner loop, returning
      what `parseRepos` pushes (lines 227-248). */
  method ParseRepos(project: Val, hosts: Hosts) returns (r: Result<seq<Val>>)
    ensures r.Ok? <==> Visited(project).Ok? && NoFault(Visited(project).value)
    ensures r.Ok? ==> r.value == Kept(Visited(project).value, hosts)
  {
    if !Truthy(project) {
      return Ok([]);
    }
    var repositories := Get(project, "repositories").value;
    assert repositories == Prop(project, "repositories");
    if !TruthyOpt(repositories) {
      return Ok([]);
    }
    match Iterate(repositories)
    case Err(f) =>
      return Err(f);
    case Ok(ws) =>
      var acc: seq<Val> := [];
      var i := 0;
      while i < |ws|
        invariant 0 <= i <= |ws|
        invariant Flatten(ws[..i], WrapperRepositories).Ok?
        invariant NoFault(Flatten(ws[..i], WrapperRepositories).value)
        invariant acc == Kept(Flatten(ws[..i], WrapperRepositories).value, hosts)
      {
        FlattenSnoc(ws, i, WrapperRepositories);
        var done := Flatten(ws[..i], WrapperRepositories).value;
        match WrapperRepositories(ws[i])
        case Err(f) =>
          if Flatten(ws, WrapperRepositories).Ok? {
            FlattenPrefix(ws, i + 1, WrapperRepositories);
          }
          return Err(f);
        case Ok(rs) =>
          var sel := SelectRepos(rs, hosts);
          match sel
          case Err(f) =>
            if Flatten(ws, WrapperRepositories).Ok? {
              FlattenPrefix(ws, i + 1, WrapperRepositories);
              ghost var v :| v in rs && SelectFaults(v);
              assert v in Flatten(ws, WrapperRepositories).value;
            }
            return Err(f);
          case Ok(ks) =>
            KeptAppend(done, rs, hosts);
            acc := acc + ks;
        i := i + 1;
      }
      assert ws[..i] == ws;
      return Ok(acc);
  }

  /** The projects the Maven task visits (lines 250-258): every element of
      `projects.project` when `projects` is truthy, else the single truthy
      `project`, else none (the `EffectivePomInvalid` warning). */
  function Projects(pom: Val): (r: Result<seq<Val>>)
    requires Truthy(pom)
    ensures !TruthyOpt(Prop(pom, "projects")) && !TruthyOpt(Prop(pom, "project")) ==> r == Ok([])
    // a truthy `projects` wins: the elements of `projects.project`, which must be iterable
    ensures TruthyOpt(Prop(pom, "projects")) ==>
              var each := Prop(Prop(pom, "projects").value, "project");
              && (r.Err? <==> each.None? || each.value.Null? || each.value.Obj?)
              && (each.Some? && each.value.Arr? ==> r == Ok(each.value.items))
    // otherwise the single truthy `project`
    ensures !TruthyOpt(Prop(pom, "projects")) && TruthyOpt(Prop(pom, "project")) ==>
              r == Ok([Prop(pom, "project").value])
  {
    var projects := Prop(pom, "projects");
    if TruthyOpt(projects) then Iterate(Prop(projects.value, "project"))
    else
      var project := Prop(pom, "project");
      if TruthyOpt(project) then Ok([project.value]) else Ok([])
  }

  /** Every repository value the walk visits, in order, or the fault the walk raises. */
  function Walk(pom: Val): Result<seq<Val>>
    requires Truthy(pom)
  {
    match Projects(pom)
    case Err(f) => Err(f)
    case Ok(ps) => Flatten(ps, Visited)
  }

  /** The tree logic of `collectFeedRepositories` (lines 209-264): `pom` is
      the parsed document and `hosts` the outcome of the hostname
      computation, which runs only for a truthy document. An `Err` is a
      rejected promise. */
  method CollectFeedRepositories(pom: Val, hosts: Result<Hosts>) returns (r: Result<seq<Val>>)
    // an empty parse resolves to no repositories before any hostname is computed
    ensures !Truthy(pom) ==> r == Ok([])
    ensures Truthy(pom) && hosts.Err? ==> r == Err(hosts.fault)
    ensures Truthy(pom) && hosts.Ok? ==>
              && (r.Ok? <==> Walk(pom).Ok? && NoFault(Walk(pom).value))
              && (r.Ok? ==> r.value == Kept(Walk(pom).value, hosts.value))
    // a root with neither `projects` nor `project` yields no repository
    ensures Truthy(pom) && hosts.Ok? && !TruthyOpt(Prop(pom, "projects")) && !TruthyOpt(Prop(pom, "project"))
            ==> r == Ok([])
  {
    if !Truthy(pom) {
      return Ok([]);
    }
    if hosts.Err? {
      return Err(hosts.fault);
    }
    match Projects(pom)
    case Err(f) =>
      return Err(f);
    case Ok(ps) =>
      var acc: seq<Val> := [];
      var i := 0;
      while i < |ps|
        invariant 0 <= i <= |ps|
        invariant Flatten(ps[..i], Visited).Ok?
        invariant NoFault(Flatten(ps[..i], Visited).value)
        invariant acc == Kept(Flatten(ps[..i], Visited).value, hosts.value)
      {
        FlattenSnoc(ps, i, Visited);
        var done := Flatten(ps[..i], Visited).value;
        var found := ParseRepos(ps[i], hosts.value);
        match found
        case Err(f) =>
          if Flatten(ps, Visited).Ok? {
            FlattenPrefix(ps, i + 1, Visited);
            if Visited(ps[i]).Ok? {
              ghost var v :| v in Visited(ps[i]).value && SelectFaults(v);
              assert v in Flatten(ps, Visited).value;
            }
          }
          return Err(f);
        case Ok(ks) =>
          KeptAppend(done, Visited(ps[i]).value, hosts.value);
          acc := acc + ks;
        i := i + 1;
      }
      assert ps[..i] == ps;
      return Ok(acc);
  }

  /** As written, a repository on the package feed's host whose URL does not
      contain `packageUrl[1]` (here, one shorter than it) is not selected:
      `packageUrl[1]` is compared whole. A repository URL that begins with
      `packageUrl[1]` is still selected. With the parsed hostname applied,
      this repository is selected too. */
  lemma RawPackageUrlMissesItsHost()
    ensures var repo := Obj(map["id" := Str("feed"), "url" := Str("https://feeds.example.net")]);
            var written := Hostnames(Some("organisation.visualstudio.com"), Some("https://feeds.example.net/"),
                                     Some("feeds.example.net"));
            var intended := IntendedHostnames(Some("organisation.visualstudio.com"), Some("https://feeds.example.net/"),
                                              Some("feeds.example.net"));
            && written.Ok? && intended.Ok?
            && Contains(UrlString(repo).value, "feeds.example.net")
            && !Matches(repo, written.value)
            && Matches(repo, intended.value)
  {
    var url := "https://feeds.example.net";
    assert OccursAt(url, "feeds.example.net", 8);
    OccursLowered(url, "feeds.example.net", 8);
  }

  /** With the parsed hostname applied, every repository whose URL contains
      the package feed's host, in any letter case, is selected. */
  lemma IntendedPackageHostMatches(collectionHost: Option<string>, packageUrl: Option<string>,
                                   packageUrlHost: Option<string>, repo: Val, i: int)
    requires IntendedHostnames(collectionHost, packageUrl, packageUrlHost).Ok? && TruthyUrl(packageUrl)
    requires UrlString(repo).Some? && UrlString(repo).value != ""
    requires OccursAt(UrlString(repo).value, packageUrlHost.value, i)
    ensures Matches(repo, IntendedHostnames(collectionHost, packageUrl, packageUrlHost).value)
  {
    OccursLowered(UrlString(repo).value, packageUrlHost.value, i);
  }

  /** A repository URL on `pkgs.dev.azure.com`, spelled out around the host it contains. */
  const FeedUrl := "http://pkgs." + "dev.azure.com" + "/org/_packaging/feed"

  /** The feed repository and the unrelated one both examples filter. */
  function FeedRepository(): Val {
    Obj(map["id" := Arr([Str("feed")]), "url" := Arr([Str(FeedUrl)])])
  }

  function OtherRepository(): Val {
    Obj(map["id" := Arr([Str("other")]), "url" := Arr([Str("http://x.org")])])
  }

  /** A module whose single `<repositories>` block lists `repos`. */
  function ModuleWith(repos: seq<Val>): Val {
    Obj(map["repositories" := Arr([Obj(map["repository" := Arr(repos)])])])
  }

  /** A module lists exactly the repositories of its one `<repositories>` block. */
  lemma ModuleVisits(repos: seq<Val>)
    ensures Visited(ModuleWith(repos)) == Ok(repos)
  {
    var w := Obj(map["repository" := Arr(repos)]);
    assert WrapperRepositories(w) == Ok(repos);
    assert [w][1..] == [];
    assert repos + [] == repos;
    assert Flatten([w], WrapperRepositories) == Ok(repos);
  }

  /** Against the collection host `dev.azure.com`, the feed is kept and the
      unrelated repository is not. */
  lemma FeedKeptOtherDropped()
    ensures Hostnames(Some("dev.azure.com"), None, None).Ok?
    ensures NoFault([FeedRepository(), OtherRepository()])
    ensures Kept([FeedRepository(), OtherRepository()], Hostnames(Some("dev.azure.com"), None, None).value)
            == [Obj(map["id" := Str("feed")])]
  {
    var hosts := Hostnames(Some("dev.azure.com"), None, None).value;
    var feed, other := FeedRepository(), OtherRepository();
    FeedUrlOnCollectionHost(feed);
    assert InfoOf(feed) == Obj(map["id" := Str("feed")]);
    assert !Matches(other, hosts) by {
      assert |ToLower("http://x.org")| < |hosts.collection|;
    }
    assert [other][1..] == [];
    assert Kept([other], hosts) == [];
    assert [feed, other][1..] == [other];
  }

  /** A POM whose repositories sit on `pkgs.dev.azure.com` and on an
      unrelated host, filtered against the collection host `dev.azure.com`:
      only the first repository's id is collected. */
  lemma CollectionHostExample()
    ensures var pom := Obj(map["project" := ModuleWith([FeedRepository(), OtherRepository()])]);
            && Walk(pom) == Ok([FeedRepository(), OtherRepository()])
            && NoFault([FeedRepository(), OtherRepository()])
            && Hostnames(Some("dev.azure.com"), None, None).Ok?
            && Kept(Walk(pom).value, Hostnames(Some("dev.azure.com"), None, None).value) == [Obj(map["id" := Str("feed")])]
  {
    var repos := [FeedRepository(), OtherRepository()];
    var project := ModuleWith(repos);
    var pom := Obj(map["project" := project]);
    ModuleVisits(repos);
    assert Projects(pom) == Ok([project]);
    assert [project][1..] == [];
    assert repos + [] == repos;
    assert Flatten([project], Visited) == Ok(repos);
    FeedKeptOtherDropped();
  }

  /** Two modules under `projects`, the second also present as a sibling `project`. */
  function MultiModulePom(): Val {
    var second := ModuleWith([OtherRepository()]);
    Obj(map["projects" := Obj(map["project" := Arr([ModuleWith([FeedRepository()]), second])]), "project" := second])
  }

  /** A multi-module effective POM: `projects.project` lists two modules, the
      first using the feed and the second an unrelated host. The walk visits
      both modules in order and ignores the sibling `project`, because a
      truthy `projects` wins; `FeedKeptOtherDropped` then keeps only the
      feed's id. */
  lemma MultiModuleExample()
    ensures Walk(MultiModulePom()) == Ok([FeedRepository(), OtherRepository()])
  {
    var feed, other := FeedRepository(), OtherRepository();
    var first, second := ModuleWith([feed]), ModuleWith([other]);
    ModuleVisits([feed]);
    ModuleVisits([other]);
    assert Projects(MultiModulePom()) == Ok([first, second]);
    assert [first, second][1..] == [second];
    assert [second][1..] == [];
    assert [other] + [] == [other];
    assert Flatten([second], Visited) == Ok([other]);
    assert [feed] + [other] == [feed, other];
  }

  lemma FeedUrlOnCollectionHost(feed: Val)
    requires feed == Obj(map["id" := Arr([Str("feed")]), "url" := Arr([Str(FeedUrl)])])
    ensures Hostnames(Some("dev.azure.com"), None, None).Ok?
    ensures Matches(feed, Hostnames(Some("dev.azure.com"), None, None).value)
  {
    HostInUrl("http://pkgs.", "dev.azure.com", "/org/_packaging/feed");
    OccursLowered(FeedUrl, "dev.azure.com", 12);
  }

  /** A host spelled out inside a URL occurs there. */
  lemma HostInUrl(prefix: string, host: string, path: string)
    ensures OccursAt(prefix + host + path, host, |prefix|)
  {
    assert (prefix + host + path)[|prefix|..|prefix| + |host|] == host;
  }
}
