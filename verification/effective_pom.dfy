/**
 `collectFeedRepositoriesFromEffectivePom` (Tasks/Maven/mavenutil.ts:266-291):
 it cuts the XML out of Maven's `help:effective-pom` output with `indexOf`
 and `substring`, preferring the `<projects` ... `</projects>` pair of a
 multi-module build and falling back to `<project` ... `</project>`; when
 neither pair is in order the promise resolves `true`, not a list.

 The XML parser is a parameter: it maps the cut-out text to a tree, or to
 `None` when xml2js rejects it.
 */
module EffectivePom {
  import opened JsonTree
  import opened Text
  import opened RepositoryFilter

  const ProjectsBeginTag := "<projects"
  const ProjectsEndTag := "</projects>"
  const ProjectBeginTag := "<project"
  const ProjectEndTag := "</project>"

  /** The text handed to the parser, or `Invalid` (the `EffectivePomInvalid` warning). */
  datatype Bounding = Bounded(xml: string) | Invalid

  /** `i` and `j` are the first occurrences of `b` and `e` in `text`, and `b` comes first. */
  ghost predicate PairAt(text: string, b: string, e: string, i: int, j: int) {
    FirstAt(text, b, i) && FirstAt(text, e, j) && i < j
  }

  /** The first `b` comes before the first `e`. */
  ghost predicate Delimits(text: string, b: string, e: string) {
    exists i, j :: PairAt(text, b, e, i, j)
  }

  /** `text.substring(text.indexOf(b), text.indexOf(e) + e.length)` when both
      occur in that order (lines 274-285). */
  function BoundBy(text: string, b: string, e: string): (r: Option<string>)
    ensures r.Some? <==> Delimits(text, b, e)
    ensures forall i, j :: PairAt(text, b, e, i, j) ==> r == Some(text[i..j + |e|])
  {
    var i := IndexOf(text, b);
    var j := IndexOf(text, e);
    if i != -1 && j != -1 && i < j then
      assert PairAt(text, b, e, i, j);
      assert forall i', j' :: PairAt(text, b, e, i', j') ==> i' == i && j' == j by {
        forall i', j' | PairAt(text, b, e, i', j')
          ensures i' == i && j' == j
        {
          FirstAtUnique(text, b, i, i');
          FirstAtUnique(text, e, j, j');
        }
      }
      Some(text[i..j + |e|])
    else
      None
  }

  /** The text `collectFeedRepositoriesFromEffectivePom` hands to the parser. */
  function BoundEffectivePom(output: string): (r: Bounding)
    // a multi-module `<projects>` list wins
    ensures Delimits(output, ProjectsBeginTag, ProjectsEndTag) ==>
              r.Bounded? && Some(r.xml) == BoundBy(output, ProjectsBeginTag, ProjectsEndTag)
    // otherwise a single `<project>`
    ensures !Delimits(output, ProjectsBeginTag, ProjectsEndTag) && Delimits(output, ProjectBeginTag, ProjectEndTag) ==>
              r.Bounded? && Some(r.xml) == BoundBy(output, ProjectBeginTag, ProjectEndTag)
    // otherwise `true`
    ensures r.Invalid? <==>
              !Delimits(output, ProjectsBeginTag, ProjectsEndTag) && !Delimits(output, ProjectBeginTag, ProjectEndTag)
  {
    match BoundBy(output, ProjectsBeginTag, ProjectsEndTag)
    case Some(xml) => Bounded(xml)
    case None =>
      match BoundBy(output, ProjectBeginTag, ProjectEndTag)
      case Some(xml) => Bounded(xml)
      case None => Invalid
  }

  /** The bounded text is a contiguous slice of the output that begins with
      `<project` (or `<projects`) and ends with `</project>` or `</projects>`. */
  lemma BoundedSliceShape(output: string)
    requires BoundEffectivePom(output).Bounded?
    ensures var xml := BoundEffectivePom(output).xml;
            && (exists i :: OccursAt(output, xml, i))
            && ProjectBeginTag <= xml
            && (Delimits(output, ProjectsBeginTag, ProjectsEndTag) ==>
                  ProjectsBeginTag <= xml && EndsWith(xml, ProjectsEndTag))
            && (!Delimits(output, ProjectsBeginTag, ProjectsEndTag) ==> EndsWith(xml, ProjectEndTag))
  {
    var xml := BoundEffectivePom(output).xml;
    var projects := BoundBy(output, ProjectsBeginTag, ProjectsEndTag);
    if projects.Some? {
      assert xml == projects.value;
      BoundSlice(output, ProjectsBeginTag, ProjectsEndTag, xml);
      ProjectTagStartsProjectsTag();
      PrefixOfPrefix(ProjectBeginTag, ProjectsBeginTag, xml);
    } else {
      var project := BoundBy(output, ProjectBeginTag, ProjectEndTag);
      assert xml == project.value;
      BoundSlice(output, ProjectBeginTag, ProjectEndTag, xml);
    }
  }

  /** What `BoundBy` cuts out is a slice of the text that starts with the
      begin tag and ends with the end tag. */
  lemma BoundSlice(text: string, b: string, e: string, xml: string)
    requires Some(xml) == BoundBy(text, b, e) && |b| <= |e| + 1
    ensures (exists i :: OccursAt(text, xml, i)) && b <= xml && EndsWith(xml, e)
  {
    var i, j :| PairAt(text, b, e, i, j);
    SliceShape(text, b, e, i, j);
  }

  lemma ProjectTagStartsProjectsTag()
    ensures ProjectBeginTag <= ProjectsBeginTag
  {
    assert ProjectsBeginTag == ProjectBeginTag + "s";
  }

  lemma PrefixOfPrefix(a: string, b: string, c: string)
    requires a <= b && b <= c
    ensures a <= c
  {
    assert c[..|a|] == b[..|a|];
  }

  /** `t` is the last part of `s`. */
  ghost predicate EndsWith(s: string, t: string) {
    |t| <= |s| && s[|s| - |t|..] == t
  }

  /** The slice from a begin tag through the end of a later end tag starts
      and ends with the tags, when the begin tag is at most one character
      longer than the end tag. */
  lemma SliceShape(text: string, b: string, e: string, i: int, j: int)
    requires PairAt(text, b, e, i, j) && |b| <= |e| + 1
    ensures var xml := text[i..j + |e|];
            && OccursAt(text, xml, i) && b <= xml && EndsWith(xml, e)
  {
    var xml := text[i..j + |e|];
    assert xml[..|b|] == text[i..i + |b|];
    assert xml[|xml| - |e|..] == text[j..j + |e|];
  }

  /** Without `</projects>`, the fallback starts at the first `<project`, which
      may be the start of a `<projects` tag: the text handed to the parser is
      then an unclosed `<projects>` list rather than one project. */
  lemma FallbackMayStartAtProjectsTag(output: string, i: int, j: int)
    requires !Contains(output, ProjectsEndTag)
    requires FirstAt(output, ProjectBeginTag, i) && OccursAt(output, ProjectsBeginTag, i)
    requires FirstAt(output, ProjectEndTag, j) && i < j
    ensures BoundEffectivePom(output) == Bounded(output[i..j + |ProjectEndTag|])
    ensures ProjectsBeginTag <= BoundEffectivePom(output).xml
  {
    assert PairAt(output, ProjectBeginTag, ProjectEndTag, i, j);
    var xml := output[i..j + |ProjectEndTag|];
    assert xml[..|ProjectsBeginTag|] == output[i..i + |ProjectsBeginTag|];
  }

  /** How the promise of `collectFeedRepositoriesFromEffectivePom` settles:
      with the collected records, with `true`, or rejected (a parse error or
      a `TypeError` in the walk). */
  datatype FeedsOutcome = Feeds(records: seq<Val>) | ResolvedTrue | Rejected

  /** `collectFeedRepositoriesFromEffectivePom(output)` with the parser and
      the hostname computation as parameters. */
  method FeedsFromEffectivePom(output: string, parse: string -> Option<Val>, hosts: Result<Hosts>)
    returns (r: FeedsOutcome)
    // `true` exactly when no tag pair bounds the output
    ensures match BoundEffectivePom(output)
            case Invalid => r == ResolvedTrue
            case Bounded(xml) =>
              && !r.ResolvedTrue?
              && match parse(xml)
                 case None => r == Rejected
                 case Some(pom) =>
                   && (!Truthy(pom) ==> r == Feeds([]))
                   && (Truthy(pom) && hosts.Err? ==> r == Rejected)
                   && (Truthy(pom) && hosts.Ok? ==>
                         && (r.Feeds? <==> Walk(pom).Ok? && NoFault(Walk(pom).value))
                         && (r.Feeds? ==> r.records == Kept(Walk(pom).value, hosts.value)))
  {
    match BoundEffectivePom(output)
    case Invalid =>
      return ResolvedTrue;
    case Bounded(xml) =>
      match parse(xml)
      case None =>
        return Rejected;
      case Some(pom) =>
        var found := CollectFeedRepositories(pom, hosts);
        if found.Ok? {
          return Feeds(found.value);
        }
        return Rejected;
  }
}
