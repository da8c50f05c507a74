/**
 The `settings.xml` side of the Maven task (Tasks/Maven/mavenutil.ts):
 `mavenSettingsJsonInsertServer`, which normalizes the document skeleton and
 inserts one `<server>` entry, and the tree logic of
 `mergeCredentialsIntoSettingsXml`, which builds one credential entry per
 repository and falls back to an empty skeleton when anything fails.

 Reading and writing the file and the xml2js codec are outside the model:
 the operation takes the outcome of the read and returns the document handed
 to the serializer, or says that nothing is read or written.
 */
module SettingsBuilder {
  import opened JsonTree
  import opened StructuralMerge

  const SettingsNamespace := "http://maven.apache.org/SETTINGS/1.0.0"
  const XsiNamespace := "http://www.w3.org/2001/XMLSchema-instance"
  const SettingsXsd := "https://maven.apache.org/xsd/settings-1.0.0.xsd"

  /** The environment variable Maven substitutes into the header at build time. */
  const AccessTokenEnvSetting := "ENV_MAVEN_ACCESS_TOKEN"

  /** The header value written into every server entry: a placeholder, never the secret. */
  const AuthorizationValue := "Basic ${env." + AccessTokenEnvSetting + "}"

  /** The `$` attributes of a new `<settings>` element; `eol` is the platform's `os.EOL`. */
  function SettingsAttributes(eol: string): Val {
    Obj(map[
      "xmlns" := Str(SettingsNamespace),
      "xmlns:xsi" := Str(XsiNamespace),
      "xsi:schemaLocation" := Str(SettingsNamespace + eol + SettingsXsd)])
  }

  /** Arrays carrying named properties cannot be represented: neither the
      document nor its `settings` member is an array (xml2js never makes
      either one). */
  predicate SettingsShaped(doc: Val) {
    !doc.Arr? && (doc.Obj? && "settings" in doc.fields ==> !doc.fields["settings"].Arr?)
  }

  /** The `settings` object the document already has, if it is an object (it is replaced otherwise). */
  function ExistingSettings(doc: Val): Option<map<string, Val>> {
    if doc.Obj? && "settings" in doc.fields && doc.fields["settings"].Obj?
    then Some(doc.fields["settings"].fields) else None
  }

  /** The `servers` node the document already has, if it is truthy (it is replaced otherwise). */
  function ExistingServers(doc: Val): Option<Val> {
    match ExistingSettings(doc)
    case Some(s) => if "servers" in s && Truthy(s["servers"]) then Some(s["servers"]) else None
    case None => None
  }

  /** The node the server is merged into: the existing truthy `servers`, or a new `{}`. */
  function ServersTarget(doc: Val): Val {
    match ExistingServers(doc)
    case Some(servers) => servers
    case None => Obj(map[])
  }

  /** What `mavenSettingsJsonInsertServer` does to an object document `doc`
      besides the merge, when `d` is the document afterwards. */
  ghost predicate SkeletonNormalized(doc: Val, d: Val, eol: string)
    requires doc.Obj?
  {
    && d.Obj? && d.fields.Keys == doc.fields.Keys + {"settings"}
    // siblings of `settings` are untouched
    && (forall j :: j in doc.fields && j != "settings" ==> d.fields[j] == doc.fields[j])
    && d.fields["settings"].Obj?
    && var s := d.fields["settings"].fields;
       // `settings` is replaced by `{}` only when it is absent, null or a string,
       // and only `$` and `servers` are written into it
       && (match ExistingSettings(doc)
           case Some(prior) =>
             && s.Keys == prior.Keys + {"$", "servers"}
             && (forall j :: j in prior && j != "$" && j != "servers" ==> s[j] == prior[j])
             // the canonical attributes are written only when `$` is falsy
             && s["$"] == (if HasTruthy(Obj(prior), "$") then prior["$"] else SettingsAttributes(eol))
           case None =>
             s.Keys == {"$", "servers"} && s["$"] == SettingsAttributes(eol))
  }

  /** `mavenSettingsJsonInsertServer(json, serverJson)` (mavenutil.ts:118-135),
      returning the document as it is afterwards. */
  function InsertServer(doc: Val, server: Val, eol: string): (r: Result<Inserted>)
    requires SettingsShaped(doc)
    // a falsy document is replaced by a fresh local object: nothing observable happens
    ensures !Truthy(doc) ==> r == Ok(Inserted(doc, false))
    // `"text".settings = {}` throws in strict mode
    ensures doc.Str? && Truthy(doc) ==> r == Err(AssignOnPrimitive)
    ensures r.Ok? ==> SettingsShaped(r.value.node)
    // an object document is normalized and the server merged into `servers`
    ensures doc.Obj? ==> r == InsertIntoObject(doc, server, eol)
  {
    match doc
    case Null => Ok(Inserted(doc, false))
    case Str(t) => if t == "" then Ok(Inserted(doc, false)) else Err(AssignOnPrimitive)
    case Obj(_) => InsertIntoObject(doc, server, eol)
  }

  /** The object case of `InsertServer`: normalize the skeleton, then merge
      the server into `servers`. */
  function InsertIntoObject(doc: Val, server: Val, eol: string): (r: Result<Inserted>)
    requires doc.Obj? && SettingsShaped(doc)
    ensures r.Ok? <==> AddProp(ServersTarget(doc), "server", server).Ok?
    ensures r.Ok? ==>
              && SettingsShaped(r.value.node)
              && SkeletonNormalized(doc, r.value.node, eol)
              && ExistingServers(r.value.node) == Some(AddProp(ServersTarget(doc), "server", server).value.node)
              && r.value.duplicate == AddProp(ServersTarget(doc), "server", server).value.duplicate
  {
    var settings := Skeleton(doc, eol);
    match AddProp(settings["servers"], "server", server)
    case Err(f) => Err(f)
    case Ok(Inserted(n, dup)) =>
      var d := Obj(doc.fields["settings" := Obj(settings["servers" := n])]);
      assert d.fields["settings"].fields.Keys == settings.Keys;
      Ok(Inserted(d, dup))
  }

  /** The `settings` object after mavenutil.ts:122-133, before the merge:
      `settings` kept if it is an object and `{}` otherwise, the canonical
      `$` attributes added when `$` is falsy, `servers: {}` added when
      `servers` is falsy. */
  function Skeleton(doc: Val, eol: string): (s: map<string, Val>)
    requires doc.Obj?
    ensures "$" in s && "servers" in s && s["servers"] == ServersTarget(doc)
    ensures match ExistingSettings(doc)
            case Some(prior) =>
              && s.Keys == prior.Keys + {"$", "servers"}
              && (forall j :: j in prior && j != "$" && j != "servers" ==> s[j] == prior[j])
              && s["$"] == (if HasTruthy(Obj(prior), "$") then prior["$"] else SettingsAttributes(eol))
            case None =>
              s.Keys == {"$", "servers"} && s["$"] == SettingsAttributes(eol)
  {
    var m := doc.fields;
    var settings := if "settings" in m && m["settings"].Obj? then m["settings"].fields else map[];
    var withAttrs :=
      if "$" in settings && Truthy(settings["$"]) then settings
      else settings["$" := SettingsAttributes(eol)];
    if "servers" in withAttrs && Truthy(withAttrs["servers"]) then withAttrs
    else withAttrs["servers" := Obj(map[])]
  }

  /** `json.id` when `json` is an object that has one. */
  function IdOf(v: Val): Option<Val> {
    if v.Obj? && "id" in v.fields then Some(v.fields["id"]) else None
  }

  /** The value of the `Authorization` header a server entry configures, if any. */
  function AuthorizationHeader(server: Val): Option<string> {
    if && server.Obj? && "configuration" in server.fields
       && HasTruthy(server.fields["configuration"], "httpHeaders")
       && HasTruthy(server.fields["configuration"].fields["httpHeaders"], "property")
    then
      var p := server.fields["configuration"].fields["httpHeaders"].fields["property"];
      if && p.Obj? && "name" in p.fields && p.fields["name"] == Str("Authorization")
         && "value" in p.fields && p.fields["value"].Str?
      then Some(p.fields["value"].s) else None
    else None
  }

  /** The `<server>` entry for one repository (mavenutil.ts:143-153); reading
      `repository.id` throws when the repository is `null`. */
  function ServerEntry(repository: Val): (r: Result<Val>)
    ensures r.Err? <==> repository.Null?
    ensures r.Ok? ==> IdOf(r.value) == IdOf(repository)
    ensures r.Ok? ==> AuthorizationHeader(r.value) == Some(AuthorizationValue)
    ensures r.Ok? ==> r.value.Obj? && !r.value.Arr?
  {
    match Get(repository, "id")
    case Err(f) => Err(f)
    case Ok(id) =>
      var property := Obj(map["name" := Str("Authorization"), "value" := Str(AuthorizationValue)]);
      var headers := Obj(map["property" := property]);
      var configuration := Obj(map["httpHeaders" := headers]);
      Ok(Obj(Field("id", id) + map["configuration" := configuration]))
  }

  /** One server entry per repository, in order; the first `null` repository throws. */
  function ServerEntries(repositories: seq<Val>): (r: Result<seq<Val>>)
    ensures r.Err? <==> exists i :: 0 <= i < |repositories| && repositories[i].Null?
    ensures r.Ok? ==>
              && |r.value| == |repositories|
              && forall i :: 0 <= i < |repositories| ==>
                   && r.value[i].Obj?
                   && IdOf(r.value[i]) == IdOf(repositories[i])
                   && AuthorizationHeader(r.value[i]) == Some(AuthorizationValue)
    decreases |repositories|
  {
    if |repositories| == 0 then Ok([])
    else
      match ServerEntry(repositories[0])
      case Err(f) => Err(f)
      case Ok(e) =>
        match ServerEntries(repositories[1..])
        case Err(f) => assert repositories[1..][0] == repositories[1]; Err(f)
        case Ok(es) => Ok([e] + es)
  }

  /** A document after a run of insertions, and how many were skipped as duplicates. */
  datatype Merged = Merged(doc: Val, duplicates: nat)

  /** `mavenSettingsJsonInsertServer` applied to each server in turn (mavenutil.ts:141-156). */
  function InsertServers(doc: Val, servers: seq<Val>, eol: string): (r: Result<Merged>)
    requires SettingsShaped(doc)
    ensures r.Ok? ==> SettingsShaped(r.value.doc) && r.value.duplicates <= |servers|
    ensures |servers| == 0 ==> r == Ok(Merged(doc, 0))
    // a `null` document stays `null`; an object stays an object
    ensures doc.Null? ==> r == Ok(Merged(doc, 0))
    ensures doc.Obj? && r.Ok? ==> r.value.doc.Obj?
    decreases |servers|
  {
    if |servers| == 0 then Ok(Merged(doc, 0))
    else
      match InsertServer(doc, servers[0], eol)
      case Err(f) => Err(f)
      case Ok(Inserted(d, dup)) =>
        match InsertServers(d, servers[1..], eol)
        case Err(f) => Err(f)
        case Ok(Merged(d', n)) => Ok(Merged(d', n + if dup then 1 else 0))
  }

  /** What a successful read and parse of `settings.xml` yields: an object, or
      `null` for an empty file. */
  predicate ParsedSettings(doc: Val) {
    (doc.Obj? || doc.Null?) && SettingsShaped(doc)
  }

  /** The outcome of reading and parsing `settings.xml`. */
  datatype ReadResult = Parsed(doc: Val) | Unreadable

  /** `Untouched`: the promise resolves `true` and the file is neither read nor
      written. `Written(doc, ...)`: `doc.settings` is serialized and written;
      `fallback` tells the recovery path, `duplicates` counts the skipped
      entries (each logged as `EntryAlreadyExists`). */
  datatype MergeOutcome = Untouched | Written(doc: Val, fallback: bool, duplicates: nat)

  /** The document the recovery path writes: `mavenSettingsJsonInsertServer({}, null)`
      (mavenutil.ts:161-165). */
  function FallbackDocument(eol: string): (d: Val)
    ensures d == Obj(map["settings" := Obj(map[
                   "$" := SettingsAttributes(eol),
                   "servers" := Obj(map["server" := Null])])])
  {
    var d := InsertServer(Obj(map[]), Null, eol).value.node;
    var servers := AddProp(Obj(map[]), "server", Null).value.node;
    assert servers.fields == map["server" := Null];
    var s := d.fields["settings"].fields;
    assert s == map["$" := SettingsAttributes(eol), "servers" := servers];
    assert d.fields == map["settings" := Obj(s)];
    d
  }

  /** The tree logic of `mergeCredentialsIntoSettingsXml` (mavenutil.ts:137-170).
      Any fault raised while inserting, including `null.settings` when the
      parsed document is `null`, lands in the recovery path, as a failed read
      does. */
  function MergeCredentials(repositories: Val, read: ReadResult, eol: string): (r: MergeOutcome)
    requires read.Parsed? ==> ParsedSettings(read.doc)
    // falsy `repositories` (null, undefined, "") touch nothing; an empty array is truthy
    ensures r.Untouched? <==> !Truthy(repositories)
    ensures Truthy(repositories) && read.Unreadable? ==> r == Written(FallbackDocument(eol), true, 0)
    // the recovery path writes the skeleton, which holds no credential
    ensures r.Written? && r.fallback ==> r.doc == FallbackDocument(eol) && r.duplicates == 0
    // a plain object is not iterable; a null repository has no id; a null document has no settings
    ensures Truthy(repositories) && repositories.Obj? ==> r.Written? && r.fallback
    ensures repositories.Arr? && (exists i :: 0 <= i < |repositories.items| && repositories.items[i].Null?)
            ==> r.Written? && r.fallback
    ensures Truthy(repositories) && read.Parsed? && read.doc.Null? ==> r.Written? && r.fallback
    ensures r.Written? && !r.fallback ==>
              read.Parsed? && read.doc.Obj? && r.doc.Obj? && r.duplicates <= NumberOfEntries(repositories)
  {
    if !Truthy(repositories) then Untouched
    else
      match read
      case Unreadable => Written(FallbackDocument(eol), true, 0)
      case Parsed(doc) =>
        match Iterate(Some(repositories))
        case Err(_) => Written(FallbackDocument(eol), true, 0)
        case Ok(items) =>
          match ServerEntries(items)
          case Err(_) => Written(FallbackDocument(eol), true, 0)
          case Ok(servers) =>
            match InsertServers(doc, servers, eol)
            case Err(_) => Written(FallbackDocument(eol), true, 0)
            case Ok(Merged(d, n)) =>
              if d.Null? then Written(FallbackDocument(eol), true, 0)
              else Written(d, false, n)
  }

  /** How many values `for ... of` visits in `repositories`. */
  function NumberOfEntries(repositories: Val): nat {
    match repositories
    case Arr(xs) => |xs|
    case Str(s) => |s|
    case _ => 0
  }

  /** The `<server>` elements the serializer emits for the document, when
      `settings.servers` is absent, falsy or a plain object. For xml2js's
      array-of-wrappers shape (`servers: [{server: [...]}]`) it is `[]`: the
      lemmas stated with it require `ServersAbsentOrObject`. */
  ghost function ServerList(doc: Val): seq<Val> {
    match ExistingServers(doc)
    case Some(servers) => Entries(ChildOf(servers, "server"))
    case None => []
  }

  /** `settings.servers` is missing, falsy or a plain object (the shape this
      module creates; xml2js's own shape is an array of wrappers). */
  predicate ServersAbsentOrObject(doc: Val) {
    ExistingServers(doc).None? || ExistingServers(doc).value.Obj?
  }

  /** The skeleton the recovery path writes has exactly one `<server>`, which
      is `null`: it holds no credential. */
  lemma FallbackHoldsNoCredential(eol: string)
    ensures ServerList(FallbackDocument(eol)) == [Null]
    ensures forall e :: e in ServerList(FallbackDocument(eol)) ==> AuthorizationHeader(e).None?
  {
  }

  /** No entry of `entries` carries the id of `server`, and the duplicate check does not throw on any. */
  ghost predicate NewTo(server: Val, entries: seq<Val>) {
    forall e :: e in entries ==> !SameId(server, e) && !ThrowsOn(server, e)
  }

  /** The duplicate check sees only the `id` of the inserted value. */
  lemma SameIdFollowsId(a: Val, b: Val, o: Val)
    requires IdOf(a) == IdOf(b)
    ensures SameId(a, o) == SameId(b, o) && ThrowsOn(a, o) == ThrowsOn(b, o)
  {
  }

  lemma NewToFollowsId(a: Val, b: Val, entries: seq<Val>)
    requires IdOf(a) == IdOf(b)
    ensures NewTo(a, entries) == NewTo(b, entries)
  {
    forall e | e in entries
      ensures SameId(a, e) == SameId(b, e) && ThrowsOn(a, e) == ThrowsOn(b, e)
    {
      SameIdFollowsId(a, b, e);
    }
  }

  /** A server whose id no present entry carries is appended after the
      present entries, and `servers` is an object afterwards. */
  lemma InsertServerAppends(doc: Val, server: Val, eol: string)
    requires doc.Obj? && SettingsShaped(doc) && ServersAbsentOrObject(doc)
    requires !server.Arr?
    requires NewTo(server, ServerList(doc))
    ensures InsertServer(doc, server, eol).Ok?
    ensures var ins := InsertServer(doc, server, eol).value;
            && !ins.duplicate
            && ins.node.Obj? && SettingsShaped(ins.node)
            && ExistingServers(ins.node).Some? && ExistingServers(ins.node).value.Obj?
            && ServerList(ins.node) == ServerList(doc) + [server]
  {
    var target := ServersTarget(doc);
    assert Entries(ChildOf(target, "server")) == ServerList(doc);
    var child := ChildOf(target, "server");
    if child.Some? && child.value.Arr? {
      assert forall j :: 0 <= j < |child.value.items| ==> child.value.items[j] in ServerList(doc);
    }
    AddPropKeepsEntries(target, "server", server);
  }

  /** The properties of `settings` other than `$` and `servers`. */
  ghost predicate SettingsSiblingsKept(doc: Val, d: Val) {
    ExistingSettings(doc).Some? ==>
      && ExistingSettings(d).Some?
      && forall j :: j in ExistingSettings(doc).value && j != "$" && j != "servers" ==>
           j in ExistingSettings(d).value && ExistingSettings(d).value[j] == ExistingSettings(doc).value[j]
  }

  /** One insertion keeps every present `<server>` and appends the new one
      unless it is reported as a duplicate. */
  lemma InsertServerConserves(doc: Val, server: Val, eol: string)
    requires doc.Obj? && SettingsShaped(doc) && ServersAbsentOrObject(doc)
    requires !server.Arr?
    requires InsertServer(doc, server, eol).Ok?
    ensures var ins := InsertServer(doc, server, eol).value;
            && ins.node.Obj? && SettingsShaped(ins.node) && ServersAbsentOrObject(ins.node)
            && ServerList(ins.node) == ServerList(doc) + (if ins.duplicate then [] else [server])
            && (forall j :: j in doc.fields && j != "settings" ==> j in ins.node.fields && ins.node.fields[j] == doc.fields[j])
            && SettingsSiblingsKept(doc, ins.node)
  {
    InsertServerKeepsSiblings(doc, server, eol);
    var ins := InsertServer(doc, server, eol).value;
    assert && ServersAbsentOrObject(ins.node)
           && ServerList(ins.node) == ServerList(doc) + (if ins.duplicate then [] else [server]) by {
      var target := ServersTarget(doc);
      assert Entries(ChildOf(target, "server")) == ServerList(doc);
      AddPropKeepsEntries(target, "server", server);
    }
  }

  /** A failed insertion into an object document found both `settings` and a
      truthy `servers` already there: a `settings` or `servers` the code
      creates is `{}`, and inserting into `{}` cannot fail. Of the writes at
      lines 122-133, only the canonical `$` can precede the fault. */
  lemma InsertFaultNeedsExistingServers(doc: Val, server: Val, eol: string)
    requires doc.Obj? && SettingsShaped(doc)
    requires InsertServer(doc, server, eol).Err?
    ensures ExistingSettings(doc).Some? && ExistingServers(doc).Some?
  {
  }

  /** Whatever shape `servers` has, one insertion into an object document
      keeps the properties `SkeletonNormalized` leaves alone. */
  lemma InsertServerKeepsSiblings(doc: Val, server: Val, eol: string)
    requires doc.Obj? && SettingsShaped(doc)
    requires InsertServer(doc, server, eol).Ok?
    ensures var d := InsertServer(doc, server, eol).value.node;
            && d.Obj?
            && (forall j :: j in doc.fields && j != "settings" ==> j in d.fields && d.fields[j] == doc.fields[j])
            && SettingsSiblingsKept(doc, d)
  {
    assert SkeletonNormalized(doc, InsertServer(doc, server, eol).value.node, eol);
  }

  /** A run of insertions with arbitrary ids loses nothing: the present
      `<server>` elements stay in front, each server is either appended or
      counted as a duplicate, and the other properties of the document and
      of `settings` (`proxies`, `mirrors`, ...) survive the whole run. */
  lemma {:induction false} InsertServersConserves(doc: Val, servers: seq<Val>, eol: string)
    requires doc.Obj? && SettingsShaped(doc) && ServersAbsentOrObject(doc)
    requires forall i :: 0 <= i < |servers| ==> !servers[i].Arr?
    requires InsertServers(doc, servers, eol).Ok?
    ensures var m := InsertServers(doc, servers, eol).value;
            && m.doc.Obj? && ServersAbsentOrObject(m.doc)
            && ServerList(doc) <= ServerList(m.doc)
            && |ServerList(m.doc)| + m.duplicates == |ServerList(doc)| + |servers|
            && (forall j :: j in doc.fields && j != "settings" ==> j in m.doc.fields && m.doc.fields[j] == doc.fields[j])
            && SettingsSiblingsKept(doc, m.doc)
    decreases |servers|
  {
    if |servers| > 0 {
      InsertServerConserves(doc, servers[0], eol);
      var ins := InsertServer(doc, servers[0], eol).value;
      var rest := servers[1..];
      assert forall i :: 0 <= i < |rest| ==> !rest[i].Arr? by {
        forall i | 0 <= i < |rest| ensures !rest[i].Arr? { assert rest[i] == servers[i + 1]; }
      }
      assert InsertServers(ins.node, rest, eol).Ok?;
      InsertServersConserves(ins.node, rest, eol);
      var m := InsertServers(ins.node, rest, eol).value;
      assert InsertServers(doc, servers, eol).value == Merged(m.doc, m.duplicates + if ins.duplicate then 1 else 0);
    }
  }

  /** Whatever shape `servers` has, a run of insertions keeps every property
      of the document other than `settings`, and every property of `settings`
      other than `$` and `servers` (`proxies`, `mirrors`, ...). */
  lemma {:induction false} InsertServersKeepsSiblings(doc: Val, servers: seq<Val>, eol: string)
    requires doc.Obj? && SettingsShaped(doc)
    requires InsertServers(doc, servers, eol).Ok?
    ensures var m := InsertServers(doc, servers, eol).value;
            && m.doc.Obj?
            && (forall j :: j in doc.fields && j != "settings" ==> j in m.doc.fields && m.doc.fields[j] == doc.fields[j])
            && SettingsSiblingsKept(doc, m.doc)
    decreases |servers|
  {
    if |servers| > 0 {
      InsertServerKeepsSiblings(doc, servers[0], eol);
      var ins := InsertServer(doc, servers[0], eol).value;
      assert InsertServers(ins.node, servers[1..], eol).Ok?;
      InsertServersKeepsSiblings(ins.node, servers[1..], eol);
    }
  }

  /** Servers with pairwise different ids, none of them already present, are
      all appended, in order, and none is reported as a duplicate. */
  lemma {:induction false} InsertServersAppend(doc: Val, servers: seq<Val>, eol: string)
    requires doc.Obj? && SettingsShaped(doc) && ServersAbsentOrObject(doc)
    requires forall i :: 0 <= i < |servers| ==> servers[i].Obj?
    requires forall i, j :: 0 <= i < j < |servers| ==> !SameId(servers[j], servers[i])
    requires forall i :: 0 <= i < |servers| ==> NewTo(servers[i], ServerList(doc))
    ensures InsertServers(doc, servers, eol).Ok?
    ensures var m := InsertServers(doc, servers, eol).value;
            && m.duplicates == 0 && m.doc.Obj? && SettingsShaped(m.doc) && ServersAbsentOrObject(m.doc)
            && ServerList(m.doc) == ServerList(doc) + servers
    decreases |servers|
  {
    if |servers| > 0 {
      InsertServerAppends(doc, servers[0], eol);
      var d := InsertServer(doc, servers[0], eol).value.node;
      var rest := servers[1..];
      RestStaysNew(ServerList(doc), servers);
      assert InsertServer(doc, servers[0], eol) == Ok(Inserted(d, false));
      InsertServersAppend(d, rest, eol);
      var m := InsertServers(d, rest, eol).value;
      assert InsertServers(doc, servers, eol) == Ok(Merged(m.doc, m.duplicates));
      Reassociate(ServerList(doc), servers);
    }
  }

  lemma Reassociate(a: seq<Val>, xs: seq<Val>)
    requires |xs| > 0
    ensures a + [xs[0]] + xs[1..] == a + xs
  {
  }

  /** After the first server is appended, the remaining ones are still new
      to the entries and still carry pairwise different ids. */
  lemma RestStaysNew(entries: seq<Val>, servers: seq<Val>)
    requires |servers| > 0
    requires forall i :: 0 <= i < |servers| ==> servers[i].Obj?
    requires forall i, j :: 0 <= i < j < |servers| ==> !SameId(servers[j], servers[i])
    requires forall i :: 0 <= i < |servers| ==> NewTo(servers[i], entries)
    ensures forall i :: 0 <= i < |servers[1..]| ==> servers[1..][i].Obj?
    ensures forall i, j :: 0 <= i < j < |servers[1..]| ==> !SameId(servers[1..][j], servers[1..][i])
    ensures forall i :: 0 <= i < |servers[1..]| ==> NewTo(servers[1..][i], entries + [servers[0]])
  {
    var rest := servers[1..];
    forall i | 0 <= i < |rest|
      ensures NewTo(rest[i], entries + [servers[0]])
    {
      assert rest[i] == servers[i + 1];
      assert !SameId(rest[i], servers[0]);
    }
    forall i, j | 0 <= i < j < |rest|
      ensures !SameId(rest[j], rest[i])
    {
      assert rest[i] == servers[i + 1] && rest[j] == servers[j + 1];
    }
  }

  /** Merging credentials for repositories with pairwise different,
      non-empty string ids, none of which the document already holds, writes
      one server per repository after the present ones, in input order, each
      with the repository's id and the `Authorization` header. */
  lemma MergeWritesOneServerPerRepository(rs: seq<Val>, doc: Val, eol: string)
    requires ParsedSettings(doc) && doc.Obj? && ServersAbsentOrObject(doc)
    requires forall i :: 0 <= i < |rs| ==> HasTruthy(rs[i], "id") && rs[i].fields["id"].Str?
    requires forall i, j :: 0 <= i < j < |rs| ==> IdOf(rs[i]) != IdOf(rs[j])
    requires forall i :: 0 <= i < |rs| ==> NewTo(rs[i], ServerList(doc))
    ensures var r := MergeCredentials(Arr(rs), Parsed(doc), eol);
            && r.Written? && !r.fallback && r.duplicates == 0
            && var before := ServerList(doc);
               var after := ServerList(r.doc);
               && |after| == |before| + |rs|
               && after[..|before|] == before
               && CredentialsFor(after[|before|..], rs)
  {
    var r := MergeCredentials(Arr(rs), Parsed(doc), eol);
    assert && ServerEntries(rs).Ok? && r.Written? && !r.fallback && r.duplicates == 0
           && ServerList(r.doc) == ServerList(doc) + ServerEntries(rs).value by {
      MergeAppendsServerEntries(rs, doc, eol);
    }
    EntriesFollow(rs, ServerList(doc), ServerEntries(rs).value, ServerList(r.doc));
  }

  /** `entries` holds one server per repository of `rs`, by position, each
      with the repository's id and the `Authorization` header. */
  ghost predicate CredentialsFor(entries: seq<Val>, rs: seq<Val>) {
    && |entries| == |rs|
    && forall i :: 0 <= i < |rs| ==>
         && IdOf(entries[i]) == IdOf(rs[i])
         && AuthorizationHeader(entries[i]) == Some(AuthorizationValue)
  }

  /** The entries built for `rs`, appended after `before`, are the
      credentials for `rs`. */
  lemma EntriesFollow(rs: seq<Val>, before: seq<Val>, entries: seq<Val>, after: seq<Val>)
    requires ServerEntries(rs) == Ok(entries) && after == before + entries
    ensures |after| == |before| + |rs| && after[..|before|] == before
    ensures CredentialsFor(after[|before|..], rs)
  {
    AppendedAfter(before, entries, after);
    assert after[|before|..] == entries;
  }

  /** The merge appends exactly the server entries of the repositories. */
  lemma MergeAppendsServerEntries(rs: seq<Val>, doc: Val, eol: string)
    requires ParsedSettings(doc) && doc.Obj? && ServersAbsentOrObject(doc)
    requires forall i :: 0 <= i < |rs| ==> HasTruthy(rs[i], "id") && rs[i].fields["id"].Str?
    requires forall i, j :: 0 <= i < j < |rs| ==> IdOf(rs[i]) != IdOf(rs[j])
    requires forall i :: 0 <= i < |rs| ==> NewTo(rs[i], ServerList(doc))
    ensures ServerEntries(rs).Ok?
    ensures var r := MergeCredentials(Arr(rs), Parsed(doc), eol);
            && r.Written? && !r.fallback && r.duplicates == 0
            && ServerList(r.doc) == ServerList(doc) + ServerEntries(rs).value
  {
    ServerEntriesAreNew(rs, doc);
    var servers := ServerEntries(rs).value;
    InsertServersAppend(doc, servers, eol);
    MergeIsInsertion(rs, doc, eol);
  }

  /** The server entries built from such repositories meet the requirements
      of `InsertServersAppend` and keep each repository's id. */
  lemma ServerEntriesAreNew(rs: seq<Val>, doc: Val)
    requires forall i :: 0 <= i < |rs| ==> HasTruthy(rs[i], "id") && rs[i].fields["id"].Str?
    requires forall i, j :: 0 <= i < j < |rs| ==> IdOf(rs[i]) != IdOf(rs[j])
    requires forall i :: 0 <= i < |rs| ==> NewTo(rs[i], ServerList(doc))
    ensures ServerEntries(rs).Ok?
    ensures var servers := ServerEntries(rs).value;
            && (forall i :: 0 <= i < |servers| ==> servers[i].Obj? && IdOf(servers[i]) == IdOf(rs[i]))
            && (forall i, j :: 0 <= i < j < |servers| ==> !SameId(servers[j], servers[i]))
            && (forall i :: 0 <= i < |servers| ==> NewTo(servers[i], ServerList(doc)))
  {
    assert ServerEntries(rs).Ok? by {
      assert forall i :: 0 <= i < |rs| ==> !rs[i].Null?;
    }
    var servers := ServerEntries(rs).value;
    forall i, j | 0 <= i < j < |servers|
      ensures !SameId(servers[j], servers[i])
    {
      SameIdFollowsId(servers[j], rs[j], servers[i]);
    }
    forall i | 0 <= i < |servers|
      ensures NewTo(servers[i], ServerList(doc))
    {
      NewToFollowsId(servers[i], rs[i], ServerList(doc));
    }
  }

  /** For an array of repositories and a parsed object document, the merge
      writes what inserting the repositories' server entries produces. */
  lemma MergeIsInsertion(rs: seq<Val>, doc: Val, eol: string)
    requires ParsedSettings(doc) && doc.Obj?
    ensures ServerEntries(rs).Ok? && InsertServers(doc, ServerEntries(rs).value, eol).Ok? ==>
              var m := InsertServers(doc, ServerEntries(rs).value, eol).value;
              MergeCredentials(Arr(rs), Parsed(doc), eol) == Written(m.doc, false, m.duplicates)
  {
    assert Iterate(Some(Arr(rs))) == Ok(rs);
  }

  /** `after` is `before` followed by `xs`, read index by index. */
  lemma AppendedAfter(before: seq<Val>, xs: seq<Val>, after: seq<Val>)
    requires after == before + xs
    ensures |after| == |before| + |xs| && after[..|before|] == before
    ensures forall i :: 0 <= i < |xs| ==> after[|before| + i] == xs[i]
  {
  }

  /** Two repositories with the same id both get a server entry in a
      document without servers: the second insertion promotes the first
      entry to an array without checking ids. */
  lemma SameIdRepositoryWrittenTwice(repo: Val, eol: string)
    requires HasTruthy(repo, "id") && repo.fields["id"].Str?
    ensures var r := MergeCredentials(Arr([repo, repo]), Parsed(Obj(map[])), eol);
            && r.Written? && !r.fallback && r.duplicates == 0
            && |ServerList(r.doc)| == 2
            && IdOf(ServerList(r.doc)[0]) == IdOf(ServerList(r.doc)[1]) == IdOf(repo)
  {
    var e := CopiesShareEntry(repo);
    var d1, d2, d3 := SameIdSteps(e, eol);
    MergeIsInsertion([repo, repo], Obj(map[]), eol);
  }

  /** A third repository with that id is caught: two entries stay and one
      duplicate is reported. */
  lemma ThirdSameIdRepositorySkipped(repo: Val, eol: string)
    requires HasTruthy(repo, "id") && repo.fields["id"].Str?
    ensures var r := MergeCredentials(Arr([repo, repo, repo]), Parsed(Obj(map[])), eol);
            && r.Written? && !r.fallback && r.duplicates == 1
            && |ServerList(r.doc)| == 2
  {
    var e := CopiesShareEntry(repo);
    var d1, d2, d3 := SameIdSteps(e, eol);
    MergeIsInsertion([repo, repo, repo], Obj(map[]), eol);
  }

  /** Copies of one repository yield copies of one server entry. */
  lemma CopiesShareEntry(repo: Val) returns (e: Val)
    requires HasTruthy(repo, "id") && repo.fields["id"].Str?
    ensures e.Obj? && HasTruthy(e, "id") && e.fields["id"].Str? && IdOf(e) == IdOf(repo)
    ensures ServerEntries([repo, repo]) == Ok([e, e])
    ensures ServerEntries([repo, repo, repo]) == Ok([e, e, e])
  {
    e := ServerEntry(repo).value;
    assert ServerEntry(repo) == Ok(e);
    assert [repo][1..] == [];
    assert ServerEntries([]) == Ok([]);
    assert [e] + [] == [e];
    assert ServerEntries([repo]) == Ok([e]);
    assert [e] + [e] == [e, e] && [e] + [e, e] == [e, e, e];
    assert [repo, repo][1..] == [repo];
    assert ServerEntries([repo, repo]) == Ok([e, e]);
    assert [repo, repo, repo][1..] == [repo, repo];
  }

  /** The documents after inserting the same server entry once, twice and
      three times into `{}`: the third insertion is the first duplicate. */
  lemma SameIdSteps(e: Val, eol: string) returns (d1: Val, d2: Val, d3: Val)
    requires e.Obj? && HasTruthy(e, "id") && e.fields["id"].Str?
    ensures InsertServers(Obj(map[]), [e, e], eol) == Ok(Merged(d2, 0))
    ensures InsertServers(Obj(map[]), [e, e, e], eol) == Ok(Merged(d3, 1))
    ensures d2.Obj? && d3.Obj?
    ensures ServerList(d2) == [e, e] && ServerList(d3) == [e, e]
  {
    SameIdInsertedAtMostTwice(Obj(map[]), "server", e);
    var c1 := AddProp(Obj(map[]), "server", e).value.node;
    var c2 := AddProp(c1, "server", e).value.node;
    assert ServersTarget(Obj(map[])) == Obj(map[]);
    d1 := InsertServer(Obj(map[]), e, eol).value.node;
    assert ExistingServers(d1) == Some(c1);
    assert ServersTarget(d1) == c1;
    d2 := InsertServer(d1, e, eol).value.node;
    assert ExistingServers(d2) == Some(c2);
    assert ServersTarget(d2) == c2;
    d3 := InsertServer(d2, e, eol).value.node;
    assert ExistingServers(d3) == Some(c2);
    assert InsertServer(d2, e, eol) == Ok(Inserted(d3, true));
    assert [e][1..] == [] && [e, e][1..] == [e] && [e, e, e][1..] == [e, e];
    assert InsertServers(d2, [e], eol) == Ok(Merged(d3, 1));
    assert InsertServers(d1, [e, e], eol) == Ok(Merged(d3, 1));
  }

  /** An empty repository array is truthy: the document is read and written
      back unchanged, where a falsy value would leave the file alone. */
  lemma EmptyRepositoryArrayRewrites(doc: Val, eol: string)
    requires ParsedSettings(doc) && doc.Obj?
    ensures MergeCredentials(Arr([]), Parsed(doc), eol) == Written(doc, false, 0)
    ensures MergeCredentials(Null, Parsed(doc), eol) == Untouched
  {
  }
}
