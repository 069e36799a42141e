/** The cmd/doc site builder: an org page per repository (latest, and per
    tag) under outDir/org/repo[/tag], and a doc page per CRD under
    outDir/org/repo/tag/group/kind/version. The page data comes from the
    steps shared with the docs-generator builder (module Pages); the file
    system and the database are given as values. */
module CmdDoc {
  import opened Strings
  import opened CrdIndex
  import opened Pages

  function OrgDir(outDir: string, org: string, repo: string, tag: string): string
  {
    if tag == "" then outDir + "/" + org + "/" + repo else outDir + "/" + org + "/" + repo + "/" + tag
  }

  function DocDir(outDir: string, org: string, repo: string, tag: string,
                  group: string, kind: string, version: string): string
  {
    outDir + "/" + org + "/" + repo + "/" + tag + "/" + group + "/" + kind + "/" + version
  }

  /** With slash-free names, an org directory is outDir, the owner, the
      repository and, when one is requested, the tag. */
  lemma OrgDirSegments(outDir: string, org: string, repo: string, tag: string)
    requires '/' !in org && '/' !in repo && '/' !in tag
    ensures Split(OrgDir(outDir, org, repo, tag), '/') ==
              Split(outDir, '/') + [org, repo] + (if tag == "" then [] else [tag])
  {
    SplitAppendSegment(outDir, org, '/');
    SplitAppendSegment(outDir + "/" + org, repo, '/');
    if tag != "" {
      SplitAppendSegment(outDir + "/" + org + "/" + repo, tag, '/');
    }
  }

  /** With slash-free names, a doc directory is outDir, owner, repository,
      tag (empty for the latest pages), group, kind and version. */
  lemma DocDirSegments(outDir: string, org: string, repo: string, tag: string,
                       group: string, kind: string, version: string)
    requires '/' !in org && '/' !in repo && '/' !in tag
    requires '/' !in group && '/' !in kind && '/' !in version
    ensures Split(DocDir(outDir, org, repo, tag, group, kind, version), '/') ==
              Split(outDir, '/') + [org, repo, tag, group, kind, version]
  {
    var p := outDir + "/" + org + "/" + repo;
    SplitAppendSegment(outDir, org, '/');
    SplitAppendSegment(outDir + "/" + org, repo, '/');
    SplitAppendSegment(p, tag, '/');
    SplitAppendSegment(p + "/" + tag, group, '/');
    SplitAppendSegment(p + "/" + tag + "/" + group, kind, '/');
    SplitAppendSegment(p + "/" + tag + "/" + group + "/" + kind, version, '/');
  }

  /** Org pages of distinct (owner, repository, tag) never share a directory. */
  lemma OrgDirsDistinct(outDir: string, org: string, repo: string, tag: string,
                        org': string, repo': string, tag': string)
    requires '/' !in org && '/' !in repo && '/' !in tag
    requires '/' !in org' && '/' !in repo' && '/' !in tag'
    requires OrgDir(outDir, org, repo, tag) == OrgDir(outDir, org', repo', tag')
    ensures org == org' && repo == repo' && tag == tag'
  {
    OrgDirSegments(outDir, org, repo, tag);
    OrgDirSegments(outDir, org', repo', tag');
    var n := |Split(outDir, '/')|;
    var a := Split(OrgDir(outDir, org, repo, tag), '/');
    assert a[n] == org && a[n] == org';
    assert a[n + 1] == repo && a[n + 1] == repo';
    assert |a| == n + 2 <==> tag == "";
    assert |a| == n + 2 <==> tag' == "";
    if tag != "" {
      assert a[n + 2] == tag && a[n + 2] == tag';
    }
  }

  /** Doc pages of distinct (owner, repository, tag, GVK) never share a
      directory: unlike the docs-generator layout, two repositories with the
      same CRD at the same tag get separate pages. */
  lemma DocDirsDistinct(outDir: string, org: string, repo: string, tag: string, g: Gvk,
                        org': string, repo': string, tag': string, g': Gvk)
    requires '/' !in org && '/' !in repo && '/' !in tag && SlashFree(g)
    requires '/' !in org' && '/' !in repo' && '/' !in tag' && SlashFree(g')
    requires DocDir(outDir, org, repo, tag, g.group, g.kind, g.version) ==
             DocDir(outDir, org', repo', tag', g'.group, g'.kind, g'.version)
    ensures org == org' && repo == repo' && tag == tag' && g == g'
  {
    DocDirSegments(outDir, org, repo, tag, g.group, g.kind, g.version);
    DocDirSegments(outDir, org', repo', tag', g'.group, g'.kind, g'.version);
    var n := |Split(outDir, '/')|;
    var a := Split(DocDir(outDir, org, repo, tag, g.group, g.kind, g.version), '/');
    assert a[n] == org && a[n] == org';
    assert a[n + 1] == repo && a[n + 1] == repo';
    assert a[n + 2] == tag && a[n + 2] == tag';
    assert a[n + 3] == g.group && a[n + 3] == g'.group;
    assert a[n + 4] == g.kind && a[n + 4] == g'.kind;
    assert a[n + 5] == g.version && a[n + 5] == g'.version;
  }

  /** The org page of a repository at a tag ("" for the earliest indexed
      tag, by the query's order): its directory, its data, and the doc pages
      built while walking its CRD rows (under the same tag; `docQuery` gives
      what doc's query finds per GVK, and a panicking doc page ends org). */
  method Org(outDir: string, org: string, repo: string, tag: string,
             crdQuery: Option<seq<CrdListRow>>, docQuery: Gvk -> Option<DocRow>, tagQuery: Option<seq<string>>)
      returns (dir: string, r: OrgResult, docs: seq<DocResult>)
    ensures dir == OrgDir(outDir, org, repo, tag)
    ensures (r, docs) == OrgOutcome(org, repo, tag, crdQuery, docQuery, tagQuery)
  {
    dir := outDir + "/" + org + "/" + repo;
    if tag != "" {
      dir := outDir + "/" + org + "/" + repo + "/" + tag;
    }
    r, docs := OrgData(org, repo, tag, crdQuery, docQuery, tagQuery);
  }

  /** The doc page of one CRD of a repository at a tag. */
  method Doc(outDir: string, org: string, repo: string, tag: string,
             group: string, kind: string, version: string, row: Option<DocRow>)
      returns (dir: string, r: DocResult)
    ensures dir == DocDir(outDir, org, repo, tag, group, kind, version)
    ensures r == DocOutcome(org, repo, group, kind, version, row)
  {
    dir := outDir + "/" + org + "/" + repo + "/" + tag + "/" + group + "/" + kind + "/" + version;
    r := DocData(org, repo, group, kind, version, row);
  }
}
