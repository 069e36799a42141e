/** The docs-generator site builder: a landing page per platform version,
    an org page per repository (latest, and per tag) and a doc page per CRD.
    Directories are laid out by platform version: org pages under
    outDir/repo[/tag], doc pages under outDir/tag/group/kind/version, so the
    doc pages of two repositories with the same tag and GVK share a
    directory. The file system and the database are given as values. */
module DocsDoc {
  import opened Strings
  import opened CrdIndex
  import opened Indexer
  import opened Pages

  // ---------------------------------------------------------------------
  // Directories
  // ---------------------------------------------------------------------

  function HomeDir(outDir: string, version: string): string
  {
    if version == "" then outDir else outDir + "/" + version
  }

  function OrgDir(outDir: string, repo: string, tag: string): string
  {
    if tag == "" then outDir + "/" + repo else outDir + "/" + repo + "/" + tag
  }

  function DocDir(outDir: string, tag: string, group: string, kind: string, version: string): string
  {
    outDir + "/" + tag + "/" + group + "/" + kind + "/" + version
  }

  /** With a slash-free version, the landing page directory is outDir
      followed by the version, if one is given. */
  lemma HomeDirSegments(outDir: string, version: string)
    requires '/' !in version
    ensures Split(HomeDir(outDir, version), '/') ==
              Split(outDir, '/') + (if version == "" then [] else [version])
  {
    if version != "" {
      SplitAppendSegment(outDir, version, '/');
    }
  }

  /** With slash-free names, an org directory is outDir followed by the
      repository and, when one is requested, the tag. */
  lemma OrgDirSegments(outDir: string, repo: string, tag: string)
    requires '/' !in repo && '/' !in tag
    ensures Split(OrgDir(outDir, repo, tag), '/') ==
              Split(outDir, '/') + [repo] + (if tag == "" then [] else [tag])
  {
    SplitAppendSegment(outDir, repo, '/');
    if tag != "" {
      SplitAppendSegment(outDir + "/" + repo, tag, '/');
    }
  }

  /** With slash-free names, a doc directory is outDir followed by tag
      (empty for the latest pages), group, kind and version; the owner and
      the repository do not appear. */
  lemma DocDirSegments(outDir: string, tag: string, group: string, kind: string, version: string)
    requires '/' !in tag && '/' !in group && '/' !in kind && '/' !in version
    ensures Split(DocDir(outDir, tag, group, kind, version), '/') ==
              Split(outDir, '/') + [tag, group, kind, version]
  {
    SplitAppendSegment(outDir, tag, '/');
    SplitAppendSegment(outDir + "/" + tag, group, '/');
    SplitAppendSegment(outDir + "/" + tag + "/" + group, kind, '/');
    SplitAppendSegment(outDir + "/" + tag + "/" + group + "/" + kind, version, '/');
  }

  /** Org pages of distinct (repository, tag) pairs never share a directory. */
  lemma OrgDirsDistinct(outDir: string, repo: string, tag: string, repo': string, tag': string)
    requires '/' !in repo && '/' !in tag && '/' !in repo' && '/' !in tag'
    requires OrgDir(outDir, repo, tag) == OrgDir(outDir, repo', tag')
    ensures repo == repo' && tag == tag'
  {
    OrgDirSegments(outDir, repo, tag);
    OrgDirSegments(outDir, repo', tag');
    var n := |Split(outDir, '/')|;
    var a := Split(OrgDir(outDir, repo, tag), '/');
    assert a[n] == repo && a[n] == repo';
    assert |a| == n + 1 <==> tag == "";
    assert |a| == n + 1 <==> tag' == "";
    if tag != "" {
      assert a[n + 1] == tag && a[n + 1] == tag';
    }
  }

  /** Doc pages of distinct (tag, group, kind, version) never share a
      directory, and no doc page shares one with an org page. */
  lemma DocDirsDistinct(outDir: string, tag: string, g: Gvk, tag': string, g': Gvk, repo: string, orgTag: string)
    requires '/' !in tag && SlashFree(g) && '/' !in tag' && SlashFree(g')
    requires '/' !in repo && '/' !in orgTag
    ensures DocDir(outDir, tag, g.group, g.kind, g.version) == DocDir(outDir, tag', g'.group, g'.kind, g'.version) ==>
              tag == tag' && g == g'
    ensures DocDir(outDir, tag, g.group, g.kind, g.version) != OrgDir(outDir, repo, orgTag)
  {
    DocDirSegments(outDir, tag, g.group, g.kind, g.version);
    DocDirSegments(outDir, tag', g'.group, g'.kind, g'.version);
    OrgDirSegments(outDir, repo, orgTag);
    var n := |Split(outDir, '/')|;
    var a := Split(DocDir(outDir, tag, g.group, g.kind, g.version), '/');
    if DocDir(outDir, tag, g.group, g.kind, g.version) == DocDir(outDir, tag', g'.group, g'.kind, g'.version) {
      assert a[n] == tag && a[n] == tag';
      assert a[n + 1] == g.group && a[n + 1] == g'.group;
      assert a[n + 2] == g.kind && a[n + 2] == g'.kind;
      assert a[n + 3] == g.version && a[n + 3] == g'.version;
    }
    assert |a| == n + 4;
  }

  // ---------------------------------------------------------------------
  // The landing page
  // ---------------------------------------------------------------------

  /** A row of the landing page's query: repository, group, version, kind. */
  datatype JoinRow = JoinRow(repo: string, group: string, version: string, kind: string)

  datatype HomeRow = HomeRow(repo: string, repoShort: string, group: string, version: string, kind: string)

  /** The third slash-separated segment of a repository, or None where
      indexing it goes out of range (fewer than three segments). */
  function RepoShort(repo: string): Option<string>
  {
    var parts := Split(repo, '/');
    if |parts| >= 3 then Some(parts[2]) else None
  }

  /** For an identity stored by the indexers, the short name is the
      lower-cased repository name; a string without two slashes has none. */
  lemma RepoShortOfFullRepo(org: string, repo: string)
    requires '/' !in org && '/' !in repo
    ensures RepoShort(FullRepo(org, repo)) == Some(ToLower(repo))
    ensures RepoShort(repo) == None
    ensures RepoShort(org + "/" + repo) == None
  {
    FullRepoSegments(org, repo);
    SplitNoSep(repo, '/');
    SplitAppendSegment(org, repo, '/');
    SplitNoSep(org, '/');
  }

  /** Whether every row has a short name. */
  predicate AllShort(rows: seq<JoinRow>)
  {
    forall i :: 0 <= i < |rows| ==> RepoShort(rows[i].repo).Some?
  }

  /** The landing page's rows: each query row with its short name. */
  function HomeRowsOf(rows: seq<JoinRow>): (r: seq<HomeRow>)
    requires AllShort(rows)
    ensures |r| == |rows|
  {
    seq(|rows|, i requires 0 <= i < |rows| =>
          HomeRow(rows[i].repo, RepoShort(rows[i].repo).value, rows[i].group, rows[i].version, rows[i].kind))
  }

  /** Reads the rows for one version; None when the query fails or a
      repository string has fewer than three segments (both panic). */
  method FetchHomeRows(query: Option<seq<JoinRow>>) returns (rows: Option<seq<HomeRow>>)
    ensures rows.Some? <==> query.Some? && AllShort(query.value)
    ensures rows.Some? ==> rows.value == HomeRowsOf(query.value)
  {
    if query.None? {
      return None;
    }
    var q := query.value;
    var acc: seq<HomeRow> := [];
    var i := 0;
    while i < |q|
      invariant 0 <= i <= |q|
      invariant AllShort(q[..i])
      invariant acc == HomeRowsOf(q[..i])
    {
      var row := q[i];
      var parts := Split(row.repo, '/');
      if |parts| < 3 {
        assert RepoShort(q[i].repo).None?;
        return None;
      }
      acc := acc + [HomeRow(row.repo, parts[2], row.group, row.version, row.kind)];
      assert q[..i + 1] == q[..i] + [row];
      i := i + 1;
    }
    assert q[..|q|] == q;
    rows := Some(acc);
  }

  datatype HomeResult =
    | HomePanicked
    | HomePage(tag: string, versions: seq<string>, rows: seq<HomeRow>)

  /** The landing page: written to outDir, or outDir/version for a version;
      without a version it shows the first listed one (an empty list panics
      on the index). `query` gives the rows the database holds per version. */
  method Home(outDir: string, version: string, versions: seq<string>, query: string -> Option<seq<JoinRow>>)
      returns (dir: string, r: HomeResult)
    ensures dir == HomeDir(outDir, version)
    ensures version == "" && versions == [] ==> r == HomePanicked
    ensures version != "" || versions != [] ==>
              var shown := if version == "" then versions[0] else version;
              (r == HomePanicked <==> query(shown).None? || !AllShort(query(shown).value)) &&
              (r.HomePage? ==> r.tag == shown && r.versions == versions && r.rows == HomeRowsOf(query(shown).value))
  {
    dir := outDir;
    if version != "" {
      dir := outDir + "/" + version;
    }
    var shown := version;
    if shown == "" {
      if |versions| == 0 {
        return dir, HomePanicked;
      }
      shown := versions[0];
    }
    var rows := FetchHomeRows(query(shown));
    if rows.None? {
      return dir, HomePanicked;
    }
    r := HomePage(shown, versions, rows.value);
  }

  // ---------------------------------------------------------------------
  // Org and doc pages
  // ---------------------------------------------------------------------

  /** The org page of a repository at a tag ("" for the latest): its
      directory, its data, and the doc pages built while walking its CRD
      rows (under the same tag; `docQuery` gives what doc's query finds per
      GVK, and a panicking doc page ends org). */
  method Org(outDir: string, org: string, repo: string, tag: string,
             crdQuery: Option<seq<CrdListRow>>, docQuery: Gvk -> Option<DocRow>, tagQuery: Option<seq<string>>)
      returns (dir: string, r: OrgResult, docs: seq<DocResult>)
    ensures dir == OrgDir(outDir, repo, tag)
    ensures (r, docs) == OrgOutcome(org, repo, tag, crdQuery, docQuery, tagQuery)
  {
    dir := outDir + "/" + repo;
    if tag != "" {
      dir := outDir + "/" + repo + "/" + tag;
    }
    r, docs := OrgData(org, repo, tag, crdQuery, docQuery, tagQuery);
  }

  /** The doc page of one CRD of a repository at a tag. */
  method Doc(outDir: string, org: string, repo: string, tag: string,
             group: string, kind: string, version: string, row: Option<DocRow>)
      returns (dir: string, r: DocResult)
    ensures dir == DocDir(outDir, tag, group, kind, version)
    ensures r == DocOutcome(org, repo, group, kind, version, row)
  {
    dir := outDir + "/" + tag + "/" + group + "/" + kind + "/" + version;
    r := DocData(org, repo, group, kind, version, row);
  }
}
