/**
 `insertRepoJsonIntoPomJson` (Tasks/Maven/mavenutil.ts:189-203), the POM
 counterpart of the server insertion: it merges one `<repository>` into
 `project.repositories`.

 When the document has no `project` (or a string one), the function creates
 `project = {}` and then writes the canonical POM attributes into
 `project.$`, which is `undefined` on the fresh object: that write throws
 before anything is inserted. So only a document that already holds a
 `project` object ever receives a repository, and the canonical POM
 namespace constants are never written.
 */
module PomRepository {
  import opened JsonTree
  import opened StructuralMerge

  /** `project` holds an object, the one case that reaches the insertion. */
  predicate HasProjectObject(pom: Val) {
    pom.Obj? && "project" in pom.fields && pom.fields["project"].Obj?
  }

  /** An array carrying a named property cannot be represented: `project`,
      when present, is not an array (xml2js never makes it one). */
  predicate PomShaped(pom: Val) {
    pom.Obj? && "project" in pom.fields ==> !pom.fields["project"].Arr?
  }

  /** The node the repository is merged into: the existing truthy
      `repositories`, or a new `{}`. */
  function RepositoriesTarget(project: map<string, Val>): Val {
    if "repositories" in project && Truthy(project["repositories"]) then project["repositories"]
    else Obj(map[])
  }

  /** `insertRepoJsonIntoPomJson(pom, repo)`: the document afterwards, and
      whether the repository was skipped as a duplicate. */
  function InsertRepository(pom: Val, repo: Val): (r: Result<Inserted>)
    requires PomShaped(pom)
    // a falsy document is replaced by a local `{}` that has no `project`
    ensures !Truthy(pom) ==> r == Err(NullDereference)
    // a string document cannot take the `project` property (modules are strict)
    ensures pom.Str? && Truthy(pom) ==> r == Err(AssignOnPrimitive)
    // an absent, falsy or string `project` is replaced by `{}`, whose `$` is undefined
    ensures (pom.Obj? || pom.Arr?) && !HasProjectObject(pom) ==> r == Err(NullDereference)
    ensures r.Ok? <==>
              HasProjectObject(pom)
              && AddProp(RepositoriesTarget(pom.fields["project"].fields), "repository", repo).Ok?
    ensures r.Ok? ==>
              var project := pom.fields["project"].fields;
              var merged := AddProp(RepositoriesTarget(project), "repository", repo).value;
              && r.value.duplicate == merged.duplicate
              && r.value.node.Obj? && r.value.node.fields.Keys == pom.fields.Keys
              // siblings of `project` are untouched
              && (forall j :: j in pom.fields && j != "project" ==> r.value.node.fields[j] == pom.fields[j])
              && r.value.node.fields["project"].Obj?
              && var p := r.value.node.fields["project"].fields;
                 && p.Keys == project.Keys + {"repositories"}
                 && (forall j :: j in project && j != "repositories" ==> p[j] == project[j])
                 && p["repositories"] == merged.node
  {
    match pom
    case Null => Err(NullDereference)
    case Str(s) => if s == "" then Err(NullDereference) else Err(AssignOnPrimitive)
    case Arr(_) => Err(NullDereference)
    case Obj(m) =>
      if !HasProjectObject(pom) then Err(NullDereference)
      else
        var project := m["project"].fields;
        match AddProp(RepositoriesTarget(project), "repository", repo)
        case Err(f) => Err(f)
        case Ok(Inserted(n, dup)) =>
          Ok(Inserted(Obj(m["project" := Obj(project["repositories" := n])]), dup))
  }

  /** The `<repository>` elements the serializer emits for the document. */
  function RepositoryList(pom: Val): seq<Val> {
    if HasProjectObject(pom) then
      var project := pom.fields["project"].fields;
      if "repositories" in project && Truthy(project["repositories"])
      then Entries(ChildOf(project["repositories"], "repository"))
      else []
    else []
  }

  /** A repository inserted into a project whose `repositories` is absent or
      an object is appended after the present ones, unless one of them
      already carries its id; nothing is ever lost. */
  lemma InsertRepositoryKeepsEntries(pom: Val, repo: Val)
    requires PomShaped(pom) && HasProjectObject(pom) && !repo.Arr?
    requires RepositoriesTarget(pom.fields["project"].fields).Obj?
    requires InsertRepository(pom, repo).Ok?
    ensures var ins := InsertRepository(pom, repo).value;
            RepositoryList(ins.node) == RepositoryList(pom) + (if ins.duplicate then [] else [repo])
  {
    var project := pom.fields["project"].fields;
    var target := RepositoriesTarget(project);
    assert Entries(ChildOf(target, "repository")) == RepositoryList(pom);
    AddPropKeepsEntries(target, "repository", repo);
  }
}
