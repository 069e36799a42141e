/** The docs-generator indexer: every (repo, tag) unit of the configuration
    (owner fixed to stackabletech) is cloned at that one tag, or at branch
    `main` for the tag `nightly`; a tag row is inserted without a lookup, and
    the CRDs found under deploy/helm/ are inserted under it. Git and the
    database driver are given as values, as in CmdGitter. */
module DocsGitter {
  import opened Strings
  import opened YamlSplit
  import opened CrdIndex
  import opened Catalog
  import opened Indexer

  /** The owner every configured repository is indexed under. */
  const Org: string := "stackabletech"

  /** The tag that stands for the tip of `main`. */
  const Nightly: string := "nightly"

  /** The cloned repository: the committer time of HEAD (None when
      ResolveRevision or CommitObject fails) and the worktree (None when
      Worktree fails). */
  datatype Clone = Clone(head: Option<Time>, tree: Option<Tree>)

  // ---------------------------------------------------------------------
  // The nightly rules
  // ---------------------------------------------------------------------

  /** A shallow single-branch clone of the tag's reference, or of branch
      `main` for `nightly`. */
  function CloneOptionsFor(unit: GitterRepo): CloneOptions
  {
    var url := "https://" + FullRepo(unit.org, unit.repo);
    var reference := if unit.tag == Nightly then BranchReference("main") else TagReference(unit.tag);
    CloneOptions(url, 1, reference, true)
  }

  /** Every clone is shallow and single-branch; nightly follows the branch
      `main`, any other tag its tag reference. */
  lemma CloneOptionsRule(unit: GitterRepo)
    ensures CloneOptionsFor(unit).depth == 1 && CloneOptionsFor(unit).singleBranch
    ensures CloneOptionsFor(unit).url == "https://github.com/" + ToLower(unit.org) + "/" + ToLower(unit.repo)
    ensures unit.tag == Nightly <==> CloneOptionsFor(unit).reference == "refs/heads/main"
    ensures unit.tag != Nightly ==>
              "refs/tags/" <= CloneOptionsFor(unit).reference &&
              CloneOptionsFor(unit).reference[|"refs/tags/"|..] == unit.tag
  {
    var r := CloneOptionsFor(unit).reference;
    assert CloneOptionsFor(unit).url == "https://" + FullRepo(unit.org, unit.repo);
    CloneUrl(unit.org, unit.repo);
    if unit.tag != Nightly {
      assert r == "refs/tags/" + unit.tag;
      assert r[5] == 't';
    }
  }

  /** The time stored with the tag row: nightly is back-dated by 50 years. */
  function StoredTime(tag: string, commit: Time): Time
  {
    if tag == Nightly then AddYears(commit, -50) else commit
  }

  /** Other tags keep the committer time; nightly is stored exactly 50 years
      earlier, and so sorts before every commit made less than 50 years
      before its own. */
  lemma StoredTimeRule(tag: string, commit: Time, other: Time)
    ensures tag != Nightly ==> StoredTime(tag, commit) == commit
    ensures tag == Nightly ==>
              StoredTime(tag, commit).year == commit.year - 50 &&
              StoredTime(tag, commit).withinYear == commit.withinYear
    ensures tag == Nightly && other.year > commit.year - 50 ==> Before(StoredTime(tag, commit), other)
  {
  }

  // ---------------------------------------------------------------------
  // The path filter
  // ---------------------------------------------------------------------

  const HelmDir: string := "deploy/helm/"

  /** The grep path filter `^deploy/helm/.*\.yaml`. */
  function HelmPath(p: string): bool
  {
    HelmDir <= p && MatchAnyThen(p[|HelmDir|..], ".yaml")
  }

  /** A path passes exactly when it starts with deploy/helm/ and `.yaml`
      occurs after that prefix before any newline; the end is not anchored. */
  lemma HelmPathIff(p: string)
    ensures HelmPath(p) <==> HelmDir <= p && OccursBeforeNewline(p[|HelmDir|..], ".yaml")
  {
    if HelmDir <= p {
      MatchAnyThenIff(p[|HelmDir|..], ".yaml");
    }
  }

  /** A backup copy under deploy/helm/ passes; a YAML file elsewhere does not. */
  lemma HelmPathExamples()
    ensures HelmPath("deploy/helm/op/crds/a.yaml.bak")
    ensures !HelmPath("deploy/a.yaml")
  {
    var p := "deploy/helm/op/crds/a.yaml.bak";
    assert HelmDir <= p;
    var rest := p[|HelmDir|..];
    assert rest == "op/crds/a.yaml.bak";
    assert OccursAt(rest, ".yaml", 9) by {
      assert rest[9..14] == ".yaml";
      assert rest[..9] == "op/crds/a";
    }
    MatchComplete(rest, ".yaml", 9);
    assert "deploy/a.yaml"[7] != HelmDir[7];
  }

  // ---------------------------------------------------------------------
  // getCRDsFromTag
  // ---------------------------------------------------------------------

  /** Greps the checked-out tree (no checkout of its own: HEAD is the tag)
      and collects the CRDs; it returns no error. */
  method GetCrdsFromTag(tree: Tree, normalize: Bytes -> Normalized)
      returns (repoCrds: map<string, RepoCrd>, err: bool, ghost order: seq<string>)
    ensures !err
    ensures Enumerates(order, TreeFiles(tree, HelmPath).Keys)
    ensures forall f :: f in order ==> f in TreeFiles(tree, HelmPath)
    ensures repoCrds == AbsorbFiles(order, TreeFiles(tree, HelmPath), normalize)
    ensures forall key :: key in repoCrds <==> Declared(TreeFiles(tree, HelmPath), normalize, key)
    ensures forall key :: key in repoCrds ==> repoCrds[key].path == key
  {
    repoCrds, order := CrdsOfTree(tree, HelmPath, normalize);
    err := false;
  }

  // ---------------------------------------------------------------------
  // Index
  // ---------------------------------------------------------------------

  class Gitter {
    const db: Catalog

    constructor (db: Catalog)
      ensures this.db == db
    {
      this.db := db;
    }

    /** Indexes one unit. `clone` is None when the temp dir or the clone
        fails; `tagFault` and `crdFault` say whether the tag insert and the
        batch insert return an error from the driver. The tag row is inserted
        before any CRD work, and CRDs are only inserted under it. */
    method Index(unit: GitterRepo, clone: Option<Clone>, tagFault: bool, crdFault: bool, normalize: Bytes -> Normalized)
        returns (err: bool, ghost found: map<string, RepoCrd>, ghost order: seq<string>, ghost keys: seq<string>)
      requires db.Valid()
      modifies db
      ensures db.Valid()
      // no clone, or no commit at HEAD: nothing is written
      ensures clone.None? || clone.value.head.None? ==>
                err && db.tags == old(db.tags) && db.crds == old(db.crds)
      // the tag row is inserted unconditionally; if that fails nothing else happens
      ensures clone.Some? && clone.value.head.Some? &&
              (tagFault || TagKey(unit.tag, FullRepo(unit.org, unit.repo)) in old(db.tags)) ==>
                err && db.tags == old(db.tags) && db.crds == old(db.crds)
      ensures clone.Some? && clone.value.head.Some? &&
              !tagFault && TagKey(unit.tag, FullRepo(unit.org, unit.repo)) !in old(db.tags) ==>
                db.tags == old(db.tags)[TagKey(unit.tag, FullRepo(unit.org, unit.repo)) :=
                                        TagRow(old(db.nextId), StoredTime(unit.tag, clone.value.head.value))] &&
                (clone.value.tree.None? ==> err && db.crds == old(db.crds)) &&
                (clone.value.tree.Some? ==>
                   Enumerates(order, TreeFiles(clone.value.tree.value, HelmPath).Keys) &&
                   (forall f :: f in order ==> f in TreeFiles(clone.value.tree.value, HelmPath)) &&
                   found == AbsorbFiles(order, TreeFiles(clone.value.tree.value, HelmPath), normalize))
      // the batch is issued only when CRDs were found
      ensures clone.Some? && clone.value.head.Some? && clone.value.tree.Some? &&
              !tagFault && TagKey(unit.tag, FullRepo(unit.org, unit.repo)) !in old(db.tags) && |found| == 0 ==>
                !err && db.crds == old(db.crds)
      ensures clone.Some? && clone.value.head.Some? && clone.value.tree.Some? &&
              !tagFault && TagKey(unit.tag, FullRepo(unit.org, unit.repo)) !in old(db.tags) && |found| > 0 ==>
                Enumerates(keys, found.Keys) && (forall k :: k in keys ==> k in found) &&
                err == crdFault &&
                db.crds == if crdFault then old(db.crds) else InsertIgnoring(old(db.crds), EntriesOf(keys, found, old(db.nextId)))
    {
      found, order, keys := map[], [], [];
      if clone.None? {
        return true, found, order, keys;
      }
      var fullRepo := FullRepo(unit.org, unit.repo);
      var head := clone.value.head;
      if head.None? {
        return true, found, order, keys;
      }
      var time := StoredTime(unit.tag, head.value);
      var tagId := db.InsertTag(unit.tag, fullRepo, time, tagFault);
      if tagId.None? {
        return true, found, order, keys;
      }
      var tree := clone.value.tree;
      if tree.None? {
        return true, found, order, keys;
      }
      var repoCrds, crdErr;
      repoCrds, crdErr, order := GetCrdsFromTag(tree.value, normalize);
      found := repoCrds;
      if crdErr {
        return true, found, order, keys;
      }
      if |repoCrds| > 0 {
        var ok;
        ok, keys := InsertBatch(db, repoCrds, tagId.value, crdFault);
        if !ok {
          return true, found, order, keys;
        }
      }
      err := false;
    }
  }

  // ---------------------------------------------------------------------
  // Flattening the configuration
  // ---------------------------------------------------------------------

  /** Walks the configured repos (in Go's map order) and their tags in order:
      one unit per listed tag, all under the fixed owner. */
  method FlattenConfig(repos: map<string, seq<string>>) returns (units: seq<GitterRepo>)
    ensures forall u :: multiset(units)[u] ==
              if u.org == Org && u.repo in repos then multiset(repos[u.repo])[u.tag] else 0
    ensures forall u :: u in units <==> u.org == Org && u.repo in repos && u.tag in repos[u.repo]
  {
    units := AppendOrg([], Org, repos);
    forall u ensures u in units <==> u.org == Org && u.repo in repos && u.tag in repos[u.repo] {
      assert u in units <==> multiset(units)[u] > 0;
    }
  }
}
