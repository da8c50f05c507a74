# Maven feed credentials: a Dafny model of `Tasks/Maven/mavenutil.ts`

Before a Maven build, the Maven task of Azure Pipelines gives Maven
credentials for the Azure Artifacts feeds the build uses. It does this in three steps:

- it finds those feeds in the effective POM. `collectFeedRepositoriesFromEffectivePom`
  cuts the XML out of Maven's output, and `collectFeedRepositories` keeps the
  repositories whose URL mentions the collection's host or the package feed's host;
- it merges one `<server>` entry per feed into `settings.xml`
  (`mergeCredentialsIntoSettingsXml` and `mavenSettingsJsonInsertServer`). Each entry carries an
  `Authorization` header whose value names the environment variable
  `ENV_MAVEN_ACCESS_TOKEN`, never the secret itself;
- it can also merge a `<repository>` into a POM (`insertRepoJsonIntoPomJson`).

Every merge goes through `addPropToJson`. It inserts a value under a property
of an xml2js tree, where a repeated XML element is an array and a single one
is a scalar or an object. It skips a value whose `id` is already present only in two
cases: the property already holds an array with an element carrying that id, or the
container is an array in which no element holds the property and one element carries
the id. A property holding a single value becomes a two-element array without any id
check, also when an array container sends the value to its first element holding the
property (`WrappedPropertyPromotedWithoutCheck`).

The model works on the xml2js tree itself (module `JsonTree`): a node is a string,
`null`, an object or an array, and JavaScript's `undefined` is an absent
key or `None`. The source changes the tree in place; the model returns the
tree afterwards. Every `TypeError` the source can raise on such a tree
becomes an `Err`: reading a property of `null`, `in` on a string,
assigning to a string property, iterating a non-iterable, or calling
`toLowerCase` on a non-string. A rejected promise is an `Err` too. The
`EntryAlreadyExists` warning becomes a `duplicate` flag or counter.

Modules:

- `JsonTree`: the tree, truthiness, property reads, `x instanceof Array ? x[0] : x`, and `for ... of`;
- `Text`: `indexOf` and `includes`, each stated against an independent "occurs at", and ASCII `toLowerCase`;
- `StructuralMerge`: `addPropToJson`;
- `SettingsBuilder`: `mavenSettingsJsonInsertServer` and the tree logic of `mergeCredentialsIntoSettingsXml`;
- `PomRepository`: `insertRepoJsonIntoPomJson`;
- `RepositoryFilter`: `collectFeedRepositories`. The walk (`Walk`) and the filter (`Kept`) are separate
  reference definitions. The loops of `SelectRepos`, `ParseRepos` and
  `CollectFeedRepositories` are proved to compute their composition;
- `EffectivePom`: `collectFeedRepositoriesFromEffectivePom`.

Behaviours of the code a reader may not expect:

- An empty repository array is truthy, so `settings.xml` is read and written back
  (`EmptyRepositoryArrayRewrites`). Only a falsy value leaves the file alone.
- When neither tag pair bounds the Maven output, the promise resolves `true`, not an empty list
  (`FeedsFromEffectivePom`).
- The canonical `settings` attributes are written only when `$` is falsy. They are not
  rewritten on every insertion (`SkeletonNormalized`).
- Inserting the same id twice into a `servers` element that has no `server`
  keeps both entries. The second insertion turns the scalar into an array without
  checking ids, so at most two entries with one id build up, not exactly one
  (`SameIdInsertedAtMostTwice`, `SameIdRepositoryWrittenTwice`, `ThirdSameIdRepositorySkipped`).
- When the read or any step of the merge fails, the file gets a skeleton whose only
  `<server>` is empty. It does not get the credentials merged into an empty document
  (`FallbackDocument`, `FallbackHoldsNoCredential`).
- The package feed's URL is compared whole; its parsed hostname is
  discarded (see Findings).

## Model

| member | source | states |
|---|---|---|
| Text.IndexOf | Tasks/Maven/mavenutil.ts:274-275 | -1 exactly when the tag does not occur; otherwise the first index at which it occurs |
| Text.Includes | Tasks/Maven/mavenutil.ts:235-236 | true exactly when the host occurs somewhere in the URL |
| Text.ToLower | Tasks/Maven/mavenutil.ts:235 | same length; no ASCII capital is left in the result, and every character that is not a capital is kept in place |
| Text.LoweringIsIdempotent | Tasks/Maven/mavenutil.ts:235 | lowering an already lowered URL changes nothing |
| Text.OccursLowered | Tasks/Maven/mavenutil.ts:235-236 | a host occurring in a URL still occurs, at the same index, once both are lowered |
| StructuralMerge.ContainsId | Tasks/Maven/mavenutil.ts:74-85 | throws exactly when the value has a truthy id and the element is `null`; otherwise true exactly when the element's id is that id or an array holding it |
| StructuralMerge.FindById | Tasks/Maven/mavenutil.ts:89-90 | the first element carrying the value's id, with no throwing element before it; none exactly when no element carries the id or throws; a fault exactly when the value has a truthy id and a `null` element comes before every element carrying the id |
| StructuralMerge.FindWithChild | Tasks/Maven/mavenutil.ts:67-72 | the first element with a truthy child of that name; none exactly when no element has one and none is `null`; a fault exactly when a `null` comes before any such element |
| StructuralMerge.AddToObject | Tasks/Maven/mavenutil.ts:87-115 | an absent property is set; a scalar or object becomes a two-element array; an array gains the value at its end unless an element carries its id, which is then reported as a duplicate with the node unchanged; it throws exactly when a `null` element comes before every element carrying the id; every other property is kept |
| StructuralMerge.AddProp | Tasks/Maven/mavenutil.ts:62-116 | a falsy container is left as it is; a string throws; an object takes the insertion; an array delegates to its first element holding the property, or else gains a `{name: value}` wrapper unless one of its elements carries the id; a `null` reached in the search throws |
| StructuralMerge.AddPropKeepsEntries | Tasks/Maven/mavenutil.ts:87-114 | for an object container and a non-array value, no present entry is ever lost: the emitted elements gain the value at the end, or stay as they were on a duplicate, and every sibling property is kept |
| StructuralMerge.AppendedValueIsDuplicate | Tasks/Maven/mavenutil.ts:88-95 | once a value with a string id is appended to an array, inserting it again is a duplicate that changes nothing |
| StructuralMerge.WrappedPropertyPromotedWithoutCheck | Tasks/Maven/mavenutil.ts:67-102 | an array container whose first element holds the property as a single truthy value turns that property into a two-element array holding the value twice; nothing is skipped and no duplicate is reported, even when the value carries the same id |
| StructuralMerge.SameIdInsertedAtMostTwice | Tasks/Maven/mavenutil.ts:87-102 | two insertions of one id into an object lacking the property both go through and leave two entries; the third is a duplicate |
| SettingsBuilder.Skeleton | Tasks/Maven/mavenutil.ts:122-133 | `settings` is kept when it is an object and replaced otherwise; the canonical `$` is added only when `$` is falsy; `servers` is the existing truthy one or `{}`; nothing else changes |
| SettingsBuilder.InsertServer | Tasks/Maven/mavenutil.ts:118-135 | a falsy document is left alone; a string document throws; an object document has its skeleton normalized and the server merged into `servers`; the result keeps the document's shape |
| SettingsBuilder.InsertIntoObject | Tasks/Maven/mavenutil.ts:122-134 | it succeeds exactly when the merge into `servers` does; afterwards `servers` is the merge's result, the skeleton is normalized, siblings are untouched and the duplicate flag is the merge's |
| SettingsBuilder.InsertFaultNeedsExistingServers | Tasks/Maven/mavenutil.ts:122-134 | an insertion into an object document fails only when both `settings` and a truthy `servers` already existed, so a fault can follow only the write of the canonical `$` |
| SettingsBuilder.ServerEntry | Tasks/Maven/mavenutil.ts:143-153 | throws exactly for a `null` repository; otherwise an object with the repository's id and the `Authorization` header naming `ENV_MAVEN_ACCESS_TOKEN` |
| SettingsBuilder.ServerEntries | Tasks/Maven/mavenutil.ts:141-153 | one entry per repository, position by position, each with that repository's id and the header; a fault exactly when some repository is `null` |
| SettingsBuilder.InsertServers | Tasks/Maven/mavenutil.ts:141-156 | the duplicates counted never exceed the servers inserted; a `null` document stays `null`; an object document stays an object of the same shape |
| SettingsBuilder.FallbackDocument | Tasks/Maven/mavenutil.ts:161-165 | the recovery document is `settings` with the canonical `$` and a `servers` whose `server` is `null` |
| SettingsBuilder.FallbackHoldsNoCredential | Tasks/Maven/mavenutil.ts:161-165 | the recovery path writes exactly one `<server>`, which holds no `Authorization` header |
| SettingsBuilder.MergeCredentials | Tasks/Maven/mavenutil.ts:137-170 | the file is left alone exactly when `repositories` is falsy; an unreadable file, a plain-object `repositories`, a `null` repository or a `null` document all lead to the recovery document; a normal write needs a parsed object and counts at most one duplicate per repository |
| SettingsBuilder.InsertServerAppends | Tasks/Maven/mavenutil.ts:118-135 | when `servers` is absent, falsy or an object, a server whose id no present entry carries is appended after the present entries and is not a duplicate |
| SettingsBuilder.InsertServersAppend | Tasks/Maven/mavenutil.ts:141-156 | when `servers` is absent, falsy or an object, servers with pairwise different ids, all new to the document, are appended in order with no duplicate |
| SettingsBuilder.InsertServerConserves | Tasks/Maven/mavenutil.ts:118-135 | when `servers` is absent, falsy or an object, one insertion with any id keeps every present `<server>`, appends the new one unless it is a duplicate, and keeps the other properties of the document and of `settings` |
| SettingsBuilder.InsertServersConserves | Tasks/Maven/mavenutil.ts:141-156 | when `servers` is absent, falsy or an object, a run of insertions with arbitrary ids keeps the present `<server>` elements in front and adds one element per server not counted as a duplicate |
| SettingsBuilder.InsertServerKeepsSiblings | Tasks/Maven/mavenutil.ts:118-135 | whatever shape `servers` has, one insertion into an object document keeps every property of the document other than `settings`, and every property of `settings` other than `$` and `servers`, with its value |
| SettingsBuilder.InsertServersKeepsSiblings | Tasks/Maven/mavenutil.ts:118-156 | whatever shape `servers` has, a run of insertions into an object document keeps every property of the document other than `settings`, and every property of `settings` other than `$` and `servers` (`proxies`, `mirrors`, ...), with its value |
| SettingsBuilder.MergeAppendsServerEntries | Tasks/Maven/mavenutil.ts:139-158 | when `servers` is absent, falsy or an object, and the repositories carry distinct new ids, the written server list is the old list followed by exactly their entries |
| SettingsBuilder.MergeWritesOneServerPerRepository | Tasks/Maven/mavenutil.ts:139-158 | when `servers` is absent, falsy or an object, and the repositories carry non-empty string ids that are pairwise different and new to the document, the written file keeps the old servers as a prefix and then holds one server per repository, in input order, with the repository's id and the header |
| SettingsBuilder.SameIdRepositoryWrittenTwice | Tasks/Maven/mavenutil.ts:96-102 | two repositories with one id both get a server in a document without servers, and no duplicate is reported |
| SettingsBuilder.ThirdSameIdRepositorySkipped | Tasks/Maven/mavenutil.ts:88-92 | a third repository with that id is reported as a duplicate and two servers remain |
| SettingsBuilder.EmptyRepositoryArrayRewrites | Tasks/Maven/mavenutil.ts:139-168 | an empty array rewrites the parsed document unchanged, while `null` leaves the file alone |
| PomRepository.InsertRepository | Tasks/Maven/mavenutil.ts:189-203 | a falsy document, an absent or non-object `project` throws (its `$` is undefined), a string document throws; otherwise the repository is merged into `project.repositories`, and the other properties of `project` and of the document are kept |
| PomRepository.InsertRepositoryKeepsEntries | Tasks/Maven/mavenutil.ts:199-202 | the emitted repositories are the old ones plus the new one, or unchanged on a duplicate |
| RepositoryFilter.Hostnames | Tasks/Maven/mavenutil.ts:220-226 | a URL without a host throws; the collection host is lowered; the package host is the raw package URL when one is given and the collection host otherwise |
| RepositoryFilter.IntendedHostnames | Tasks/Maven/mavenutil.ts:220-226 | the corrected hostnames: the package host is the lowered parsed hostname of the package URL |
| RepositoryFilter.Info | Tasks/Maven/mavenutil.ts:238-242 | the record holds an `id` exactly when the unwrapped id is defined, and nothing else; a scalar or object id is copied as it is, and an array id contributes its first element |
| RepositoryFilter.Select | Tasks/Maven/mavenutil.ts:233-243 | throws exactly when the repository is missing or `null` or its URL is truthy but not a string; otherwise a record exactly when the URL matches a host, and it is the repository's record |
| RepositoryFilter.KeptAppend | Tasks/Maven/mavenutil.ts:232-244 | filtering keeps the order of the repositories: it distributes over concatenation |
| RepositoryFilter.KeptExactly | Tasks/Maven/mavenutil.ts:235-242 | a record is collected exactly when some matching repository contributes it |
| RepositoryFilter.RepeatedRepositoryKeptTwice | Tasks/Maven/mavenutil.ts:238-242 | repeats are not removed: a matching repository listed twice is collected twice |
| RepositoryFilter.SelectRepos | Tasks/Maven/mavenutil.ts:232-244 | succeeds exactly when no repository throws, and then returns the records of the matching repositories in order |
| RepositoryFilter.WrapperRepositories | Tasks/Maven/mavenutil.ts:230-232 | reading `repository` throws exactly on a missing or `null` wrapper, and iterating it throws exactly on an object; otherwise a falsy `repository` lists nothing, an array lists its elements in order, and a string its characters |
| RepositoryFilter.ParseRepos | Tasks/Maven/mavenutil.ts:227-248 | succeeds exactly when the visit succeeds and no visited repository throws, and then returns the matching records in visit order |
| RepositoryFilter.Projects | Tasks/Maven/mavenutil.ts:250-258 | a truthy `projects` wins: its `project` elements in order, with a fault exactly when that value is missing, `null` or an object; otherwise the single truthy `project`; otherwise no project |
| RepositoryFilter.CollectFeedRepositories | Tasks/Maven/mavenutil.ts:209-264 | a falsy parse yields no repository; a hostname fault rejects; otherwise it succeeds exactly when the walk succeeds and no repository throws, and then returns the matching records in walk order |
| RepositoryFilter.CollectionHostExample | Tasks/Maven/mavenutil.ts:227-258 | a repository on `pkgs.dev.azure.com` is collected against collection host `dev.azure.com`, and one on an unrelated host is not |
| RepositoryFilter.MultiModuleExample | Tasks/Maven/mavenutil.ts:227-258 | in a multi-module POM the walk visits the repositories of every module of `projects.project`, in order, and ignores a sibling `project` |
| RepositoryFilter.FeedKeptOtherDropped | Tasks/Maven/mavenutil.ts:233-242 | against the collection host `dev.azure.com`, a repository on `pkgs.dev.azure.com` is kept with its unwrapped id, and one on an unrelated host is dropped |
| RepositoryFilter.RawPackageUrlMissesItsHost | Tasks/Maven/mavenutil.ts:221-226 | a repository on the package feed's host whose URL does not contain `packageUrl[1]` (here, one shorter than it) is not selected as written, and is selected with the parsed hostname |
| RepositoryFilter.IntendedPackageHostMatches | Tasks/Maven/mavenutil.ts:223 | with the parsed hostname applied, every repository whose URL contains the feed's host, in any letter case, is selected |
| EffectivePom.BoundBy | Tasks/Maven/mavenutil.ts:274-278 | a slice exactly when the first begin tag comes before the first end tag; it runs from the first begin tag through the end of the first end tag |
| EffectivePom.BoundEffectivePom | Tasks/Maven/mavenutil.ts:266-291 | the `<projects>` pair wins; otherwise the `<project>` pair; invalid exactly when neither pair is in order |
| EffectivePom.BoundedSliceShape | Tasks/Maven/mavenutil.ts:277-286 | the text handed to the parser is a contiguous slice of the output that starts with `<project` and ends with the matching end tag |
| EffectivePom.FallbackMayStartAtProjectsTag | Tasks/Maven/mavenutil.ts:282-286 | without `</projects>`, the fallback may start at a `<projects` tag and hand the parser an unclosed list |
| EffectivePom.FeedsFromEffectivePom | Tasks/Maven/mavenutil.ts:266-291 | resolves `true` exactly when the output is invalid; a parse error rejects; otherwise it is the outcome of collecting the feed repositories from the parsed tree |

## Left out

- Reading and writing files, creating directories and the xml2js parser and builder (lines 25-60) are left out. `MergeCredentials` takes the outcome of the read and returns the document whose `settings` would be serialized; `FeedsFromEffectivePom` takes the parser as a function.
- A failed write inside the merge, which the source also routes to the recovery path, is left out with the file I/O; so is a failed write of the recovery document, which rejects the promise.
- The removal of `&#xD;` from the serialized XML (line 45) and the byte-order-mark stripping (line 35) work on the serialized text, which is not modelled.
- `getSystemAccessToken`, `getAuthenticationToken` and `getExecOptions` (lines 173-187, 293-299) are left out. They read the build's endpoint authorization and environment and base64-encode the token; no file the model writes contains the token.
- `url.parse`, `tl.getVariable` and `assumeNuGetUriPrefixes` (lines 216-223) are calls into code outside this file. Their results are the parameters of `Hostnames`.
- The order of an object's properties is not modelled: `map<string, Val>` has none, while xml2js's builder emits child elements in insertion order, so a `servers` created here follows an existing `<proxies>`. No modelled operation reads that order.
- A fault discards the partly updated document, because `Err` carries none. At lines 193-195 a string `project` has already been replaced by `{}` when line 195 throws; at lines 125-130 the canonical `$` may already have been added to an existing `settings` when `addPropToJson` throws on an existing `servers`, because a `settings` or `servers` created at lines 122-133 is `{}`, into which the insertion cannot fail (`InsertFaultNeedsExistingServers`). The callers never use a document after a fault: the settings merge writes the recovery document instead.
- Logging (`tl.debug`, `tl.warning`) is left out; the `EntryAlreadyExists` warning is the returned duplicate flag.
- The constants `ApiVersion`, `PackagingAreaName` and `PackageAreaId` (lines 21-23) are not used by any modelled function.
- Text.ToLower: lowers ASCII letters only; JavaScript's `toLowerCase` also lowers non-ASCII letters.
- StructuralMerge.AddProp: requires a plain lower-case property name that no prototype defines, because reads on strings and arrays are modelled as `undefined`; the source only passes `server` and `repository`.
- StructuralMerge.StrictEquals: objects and arrays never compare equal, because `===` compares them by reference and the Maven task never shares one between two places.
- SettingsBuilder.InsertServer: requires that neither the document nor its `settings` is an array, because an array carrying named properties is not representable; xml2js never produces one there.
- PomRepository.InsertRepository: requires that `project` is not an array, for the same reason.
- StructuralMerge.AddPropKeepsEntries: proved only for an object container and a non-array value; an array container (xml2js's shape for a repeated element) is covered by `AddProp`'s own contract but not by this lemma.
- SettingsBuilder.InsertServerAppends: proved only when `servers` is absent, falsy or a plain object. xml2js parses an existing `<servers>` as `[{server: [...]}]`, which `ServerList` does not read.
- SettingsBuilder.InsertServerConserves: proved only when `servers` is absent, falsy or a plain object, for the same reason; the preservation of the other properties holds for every shape and is stated by `InsertServerKeepsSiblings`.
- SettingsBuilder.InsertServersAppend: proved only when `servers` is absent, falsy or a plain object, for the same reason.
- SettingsBuilder.InsertServersConserves: the `<server>` prefix and count are proved only when `servers` is absent, falsy or a plain object, for the same reason; the preservation of the other properties holds for every shape and is stated by `InsertServersKeepsSiblings`.
- SettingsBuilder.MergeAppendsServerEntries: proved only when `servers` is absent, falsy or a plain object, for the same reason.
- SettingsBuilder.MergeWritesOneServerPerRepository: proved only when `servers` is absent, falsy or a plain object; xml2js's own array-of-wrappers shape is covered by `AddProp` but not by this lemma.
- PomRepository.InsertRepositoryKeepsEntries: proved only when `repositories` is absent, falsy or a plain object, for the same reason.

## Findings

| source | as written | input that shows it | evidently intended | confidence | as-written member | corrected member |
|---|---|---|---|---|---|---|
| Tasks/Maven/mavenutil.ts:221-226 | the parsed hostname of `packageUrl[1]` is computed and discarded, so the whole URL is matched as if it were a host | package URL `https://feeds.example.net/` (host `feeds.example.net`), collection host `organisation.visualstudio.com`, repository URL `https://feeds.example.net`: not selected | match against the lowered parsed hostname `feeds.example.net`, which selects the repository | not executed | RepositoryFilter.RawPackageUrlMissesItsHost | RepositoryFilter.IntendedPackageHostMatches |
