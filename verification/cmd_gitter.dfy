/** The original indexer (cmd/gitter): for every (org, repo, tag) unit of the
    configuration it clones the repository, walks its tag references, and for
    each selected tag resolves or creates the tag row, then stores the CRDs
    found in the YAML files of that tag. Git, the worktree and the database
    driver are given as values: a `Clone` holds the tag references and what
    each commit shows, and `DbFaults` names the tags whose statements fail. */
module CmdGitter {
  import opened Strings
  import opened YamlSplit
  import opened CrdIndex
  import opened Catalog
  import opened Indexer

  /** A tag reference as ForEach yields it: its short name and its hash. */
  datatype TagRef = TagRef(name: string, hash: string)

  /** The cloned repository: its tag references in iteration order, the
      committer time of each hash (None when ResolveRevision or CommitObject
      fails) and the tree checked out at each hash (None when the checkout or
      the hard reset fails). */
  datatype Clone = Clone(refs: seq<TagRef>, commitTime: string -> Option<Time>, tree: string -> Option<Tree>)

  /** The tag names whose tag lookup, tag insert or CRD batch insert returns
      an error from the driver. */
  datatype DbFaults = DbFaults(lookup: set<string>, insertTag: set<string>, insertCrds: set<string>)

  /** How one tag of the loop ended: `continue`, the end of the body, or `return err`. */
  datatype Step = Skipped | Indexed | Failed

  // ---------------------------------------------------------------------
  // Clone options and the path filter
  // ---------------------------------------------------------------------

  /** A shallow clone of `https://<fullRepo>`; a named tag is cloned alone. */
  function CloneOptionsFor(unit: GitterRepo): CloneOptions
  {
    var url := "https://" + FullRepo(unit.org, unit.repo);
    if unit.tag != "" then CloneOptions(url, 1, TagReference(unit.tag), true)
    else CloneOptions(url, 1, "", false)
  }

  /** Depth is always one; a reference (and single-branch mode) is set exactly
      when a tag is named, and then it is that tag's reference. */
  lemma CloneOptionsRule(unit: GitterRepo)
    ensures CloneOptionsFor(unit).depth == 1
    ensures CloneOptionsFor(unit).url == "https://github.com/" + ToLower(unit.org) + "/" + ToLower(unit.repo)
    ensures CloneOptionsFor(unit).singleBranch <==> unit.tag != ""
    ensures CloneOptionsFor(unit).reference != "" <==> unit.tag != ""
    ensures unit.tag != "" ==> CloneOptionsFor(unit).reference[|"refs/tags/"|..] == unit.tag
  {
    var o := CloneOptionsFor(unit);
    assert o.url == "https://" + FullRepo(unit.org, unit.repo);
    CloneUrl(unit.org, unit.repo);
    if unit.tag != "" {
      assert o.reference == "refs/tags/" + unit.tag;
      assert |o.reference| > 0;
    } else {
      assert o.reference == "";
    }
  }

  /** The grep path filter `^.*\.yaml`. */
  function YamlPath(p: string): bool
  {
    MatchAnyThen(p, ".yaml")
  }

  /** A path passes exactly when `.yaml` occurs in it before any newline. */
  lemma YamlPathIff(p: string)
    ensures YamlPath(p) <==> OccursBeforeNewline(p, ".yaml")
  {
    MatchAnyThenIff(p, ".yaml");
  }

  // ---------------------------------------------------------------------
  // Tag selection
  // ---------------------------------------------------------------------

  /** The position of the first reference named `name`, or -1. */
  function FirstNamed(refs: seq<TagRef>, name: string): (i: int)
    ensures -1 <= i < |refs|
    ensures i >= 0 ==> refs[i].name == name
    ensures forall j :: 0 <= j < |refs| && (i < 0 || j < i) ==> refs[j].name != name
  {
    if refs == [] then -1
    else if refs[0].name == name then 0
    else
      var i := FirstNamed(refs[1..], name);
      if i < 0 then -1 else i + 1
  }

  /** The tags the walk collects: every reference when no tag is requested,
      otherwise the first reference with the requested name, if any. */
  function Selected(refs: seq<TagRef>, requested: string): seq<TagRef>
  {
    if requested == "" then refs
    else
      var i := FirstNamed(refs, requested);
      if i < 0 then [] else [refs[i]]
  }

  /** What selection promises: all references, or at most one reference and
      only one with the requested name, found whenever one exists. */
  lemma SelectedSpec(refs: seq<TagRef>, requested: string)
    ensures requested == "" ==> Selected(refs, requested) == refs
    ensures requested != "" ==> |Selected(refs, requested)| <= 1
    ensures requested != "" ==>
              forall t :: t in Selected(refs, requested) ==> t in refs && t.name == requested
    ensures requested != "" ==>
              (Selected(refs, requested) == [] <==> forall j :: 0 <= j < |refs| ==> refs[j].name != requested)
  {
  }

  /** The ForEach walk over the tag references. With a requested tag the
      callback closes the iterator after the first match, which ends the walk. */
  method SelectTags(refs: seq<TagRef>, requested: string) returns (tags: seq<TagRef>)
    ensures tags == Selected(refs, requested)
  {
    tags := [];
    var closed := false;
    var i := 0;
    while i < |refs| && !closed
      invariant 0 <= i <= |refs|
      invariant requested == "" ==> !closed && tags == refs[..i]
      invariant requested != "" && !closed ==>
                  tags == [] && forall j :: 0 <= j < i ==> refs[j].name != requested
      invariant requested != "" && closed ==>
                  0 < i && tags == [refs[i - 1]] && FirstNamed(refs, requested) == i - 1
    {
      var obj := refs[i];
      if requested == "" {
        tags := tags + [obj];
      } else if obj.name == requested {
        tags := tags + [obj];
        closed := true;
      }
      i := i + 1;
    }
    if requested == "" {
      assert refs[..|refs|] == refs;
    }
  }

  // ---------------------------------------------------------------------
  // The tag row: resolve or create
  // ---------------------------------------------------------------------

  /** Looks the (name, repo) row up and reuses its id; only when the lookup
      finds no row is a row inserted with the commit time. Any other lookup
      error, or a failing insert, yields no id. */
  method ResolveTagRow(db: Catalog, name: string, fullRepo: string, time: Time, lookupFault: bool, insertFault: bool)
      returns (tagId: Option<nat>)
    requires db.Valid()
    modifies db
    ensures db.Valid()
    ensures db.crds == old(db.crds)
    ensures tagId.Some? ==> TagKey(name, fullRepo) in db.tags && db.tags[TagKey(name, fullRepo)].id == tagId.value
    ensures lookupFault ==> tagId == None && db.tags == old(db.tags) && db.nextId == old(db.nextId)
    ensures !lookupFault && TagKey(name, fullRepo) in old(db.tags) ==>
              tagId == Some(old(db.tags)[TagKey(name, fullRepo)].id) &&
              db.tags == old(db.tags) && db.nextId == old(db.nextId)
    ensures !lookupFault && TagKey(name, fullRepo) !in old(db.tags) && insertFault ==>
              tagId == None && db.tags == old(db.tags) && db.nextId == old(db.nextId)
    ensures !lookupFault && TagKey(name, fullRepo) !in old(db.tags) && !insertFault ==>
              tagId == Some(old(db.nextId)) && db.nextId == old(db.nextId) + 1 &&
              db.tags == old(db.tags)[TagKey(name, fullRepo) := TagRow(old(db.nextId), time)]
  {
    var r := db.LookupTag(name, fullRepo, lookupFault);
    match r
    case Found(id) =>
      tagId := Some(id);
    case LookupFailed =>
      tagId := None;
    case NoRows =>
      tagId := db.InsertTag(name, fullRepo, time, insertFault);
  }

  // ---------------------------------------------------------------------
  // getCRDsFromTag
  // ---------------------------------------------------------------------

  /** Checks the tag out (None: the checkout or reset failed), greps the YAML
      files that mention a CRD and collects the CRDs they declare. */
  method GetCrdsFromTag(tree: Option<Tree>, normalize: Bytes -> Normalized)
      returns (r: Option<map<string, RepoCrd>>, ghost order: seq<string>)
    ensures tree.None? ==> r == None
    ensures tree.Some? ==>
              Enumerates(order, TreeFiles(tree.value, YamlPath).Keys) &&
              (forall f :: f in order ==> f in TreeFiles(tree.value, YamlPath)) &&
              r == Some(AbsorbFiles(order, TreeFiles(tree.value, YamlPath), normalize))
    ensures tree.Some? ==>
              (forall key :: key in r.value <==> Declared(TreeFiles(tree.value, YamlPath), normalize, key)) &&
              (forall key :: key in r.value ==> r.value[key].path == key)
  {
    if tree.None? {
      return None, [];
    }
    var repoCrds;
    repoCrds, order := CrdsOfTree(tree.value, YamlPath, normalize);
    r := Some(repoCrds);
  }

  // ---------------------------------------------------------------------
  // Index
  // ---------------------------------------------------------------------

  class Gitter {
    const db: Catalog

    constructor (db: Catalog)
      ensures this.db == db
    {
      this.db := db;
    }

    /** The CRD half of the loop body, once the tag row is known: check out
        and collect the CRDs (a failed checkout skips the tag), then, when
        any were found, insert them as one batch under the tag's id. */
    method StoreTagCrds(tree: Option<Tree>, tagId: nat, fault: bool, normalize: Bytes -> Normalized)
        returns (step: Step, ghost found: map<string, RepoCrd>, ghost order: seq<string>, ghost keys: seq<string>)
      modifies db
      ensures db.tags == old(db.tags) && db.nextId == old(db.nextId)
      ensures CrdsEffect(tree, tagId, fault, normalize, old(db.crds), db.crds, TagRun(step, found, order, keys))
    {
      found, order, keys := map[], [], [];
      var repoCrds;
      repoCrds, order := GetCrdsFromTag(tree, normalize);
      if repoCrds.None? {
        return Skipped, found, order, keys;
      }
      found := repoCrds.value;
      if |repoCrds.value| > 0 {
        var ok;
        ok, keys := InsertBatch(db, repoCrds.value, tagId, fault);
        if !ok {
          return Failed, found, order, keys;
        }
      }
      step := Indexed;
    }

    /** The body of Index's loop for one selected tag: resolve the commit
        (an unresolvable one is skipped), resolve or create the tag row (an
        error aborts), then store the tag's CRDs. */
    method IndexTag(t: TagRef, fullRepo: string, clone: Clone, faults: DbFaults, normalize: Bytes -> Normalized)
        returns (step: Step, ghost run: TagRun)
      requires db.Valid()
      modifies db
      ensures db.Valid()
      ensures run.step == step
      ensures TagStepEffect(t, fullRepo, clone, faults, normalize, old(db.State()), db.State(), run)
      ensures SubMap(old(db.tags), db.tags) && SubMap(old(db.crds), db.crds)
      ensures forall k :: k in db.tags && k !in old(db.tags) ==> k == TagKey(t.name, fullRepo)
      ensures forall c :: c in db.crds && c !in old(db.crds) ==> c.tagId in db.RepoTagIds(fullRepo)
      ensures step != Failed && clone.commitTime(t.hash).Some? ==> TagKey(t.name, fullRepo) in db.tags
    {
      run := TagRun(Skipped, map[], [], []);
      var time := clone.commitTime(t.hash);
      if time.None? {
        return Skipped, run;
      }
      var tagId := ResolveTagRow(db, t.name, fullRepo, time.value, t.name in faults.lookup, t.name in faults.insertTag);
      if tagId.None? {
        return Failed, TagRun(Failed, map[], [], []);
      }
      ghost var crdsBefore := db.crds;
      ghost var found, order, keys;
      step, found, order, keys := StoreTagCrds(clone.tree(t.hash), tagId.value, t.name in faults.insertCrds, normalize);
      run := TagRun(step, found, order, keys);
      assert tagId.value as int in db.RepoTagIds(fullRepo);
      if db.crds != crdsBefore {
        NewRowsCarryTag(crdsBefore, keys, found, tagId.value);
        InsertIgnoringGrows(crdsBefore, EntriesOf(keys, found, tagId.value));
      }
    }

    /** Index's loop: indexes the tags in order, stopping at the first
        database error. `states` are the store before and after each tag
        indexed, `runs` what each of those tags did. */
    method IndexTags(tags: seq<TagRef>, fullRepo: string, clone: Clone, faults: DbFaults, normalize: Bytes -> Normalized)
        returns (err: bool, ghost states: seq<Snapshot>, ghost runs: seq<TagRun>)
      requires db.Valid()
      modifies db
      ensures db.Valid()
      ensures Runs(tags, fullRepo, clone, faults, normalize, states, runs, err)
      ensures states[0] == old(db.State()) && states[|states| - 1] == db.State()
    {
      states, runs := [db.State()], [];
      var i := 0;
      assert RunPrefix(tags, fullRepo, clone, faults, normalize, states, runs, 0);
      while i < |tags|
        invariant 0 <= i <= |tags|
        invariant db.Valid()
        invariant RunPrefix(tags, fullRepo, clone, faults, normalize, states, runs, i)
        invariant states[0] == old(db.State()) && states[i] == db.State()
      {
        var step, run := IndexTag(tags[i], fullRepo, clone, faults, normalize);
        RunPrefixStep(tags, fullRepo, clone, faults, normalize, states, runs, i, db.State(), run);
        states, runs := states + [db.State()], runs + [run];
        if step == Failed {
          return true, states, runs;
        }
        i := i + 1;
      }
      err := false;
      RunPrefixDone(tags, fullRepo, clone, faults, normalize, states, runs);
    }

    /** Clones (None: the temp dir, the clone, the tag iterator or the worktree
        failed), selects the tags and indexes each of them in order, stopping
        at the first database error. */
    method Index(unit: GitterRepo, clone: Option<Clone>, faults: DbFaults, normalize: Bytes -> Normalized)
        returns (err: bool, ghost states: seq<Snapshot>, ghost runs: seq<TagRun>)
      requires db.Valid()
      modifies db
      ensures db.Valid()
      ensures clone.None? ==> err && db.tags == old(db.tags) && db.crds == old(db.crds)
      // the selected tags, indexed one after another until the first database error
      ensures clone.Some? ==>
                Runs(Selected(clone.value.refs, unit.tag), FullRepo(unit.org, unit.repo), clone.value, faults, normalize,
                     states, runs, err) &&
                states[0] == old(db.State()) && states[|states| - 1] == db.State()
      ensures old(db.Consistent()) ==> db.Consistent()
      ensures SubMap(old(db.tags), db.tags) && SubMap(old(db.crds), db.crds)
      // rows are only added for this repository and its selected tags
      ensures forall k :: k in db.tags && k !in old(db.tags) ==>
                clone.Some? && k.repo == FullRepo(unit.org, unit.repo) &&
                k.name in Names(Selected(clone.value.refs, unit.tag))
      ensures forall c :: c in db.crds && c !in old(db.crds) ==> c.tagId in db.RepoTagIds(FullRepo(unit.org, unit.repo))
      // on success every selected tag whose commit resolves has its row
      ensures !err ==>
                clone.Some? &&
                forall t :: t in Selected(clone.value.refs, unit.tag) && clone.value.commitTime(t.hash).Some? ==>
                  TagKey(t.name, FullRepo(unit.org, unit.repo)) in db.tags
    {
      if clone.None? {
        return true, [db.State()], [];
      }
      var tags := SelectTags(clone.value.refs, unit.tag);
      var fullRepo := FullRepo(unit.org, unit.repo);
      err, states, runs := IndexTags(tags, fullRepo, clone.value, faults, normalize);
      RunsDone(tags, fullRepo, clone.value, faults, normalize, states, runs, err);
    }
  }

  /** What one tag did: how its step ended, and the CRDs found, the file
      walk order and the key order of the batch (Go's map orders). */
  datatype TagRun = TagRun(step: Step, found: map<string, RepoCrd>, order: seq<string>, keys: seq<string>)

  /** The CRD half of one tag under the tag id: a failed checkout skips the
      tag; otherwise the CRDs of the tree are found, and when there are any
      they go into the crds table as one batch under the tag id, all or
      nothing. */
  ghost predicate CrdsEffect(tree: Option<Tree>, tagId: int, fault: bool, normalize: Bytes -> Normalized,
                             crds0: map<CrdKey, CrdRow>, crds1: map<CrdKey, CrdRow>, run: TagRun)
  {
    if tree.None? then run.step == Skipped && crds1 == crds0
    else
      var files := TreeFiles(tree.value, YamlPath);
      Enumerates(run.order, files.Keys) && (forall f :: f in run.order ==> f in files) &&
      run.found == AbsorbFiles(run.order, files, normalize) &&
      if |run.found| == 0 then run.step == Indexed && crds1 == crds0
      else
        Enumerates(run.keys, run.found.Keys) && (forall k :: k in run.keys ==> k in run.found) &&
        run.step == (if fault then Failed else Indexed) &&
        crds1 == if fault then crds0 else InsertIgnoring(crds0, EntriesOf(run.keys, run.found, tagId))
  }

  /** One tag of Index's loop, from store s0 to store s1: an unresolvable
      commit skips it; a failed lookup or tag insert is an error that
      changes nothing; otherwise the tag row is reused or inserted with the
      next id and the commit time, and the tag's CRDs are stored under that
      row's id. */
  ghost predicate TagStepEffect(t: TagRef, fullRepo: string, clone: Clone, faults: DbFaults, normalize: Bytes -> Normalized,
                                s0: Snapshot, s1: Snapshot, run: TagRun)
  {
    var key := TagKey(t.name, fullRepo);
    var time := clone.commitTime(t.hash);
    if time.None? then run.step == Skipped && s1 == s0
    else if t.name in faults.lookup || (key !in s0.tags && t.name in faults.insertTag) then
      run.step == Failed && s1 == s0
    else
      var tags1 := if key in s0.tags then s0.tags else s0.tags[key := TagRow(s0.nextId, time.value)];
      s1.tags == tags1 && s1.nextId == (if key in s0.tags then s0.nextId else s0.nextId + 1) &&
      CrdsEffect(clone.tree(t.hash), tags1[key].id, t.name in faults.insertCrds, normalize, s0.crds, s1.crds, run)
  }

  /** The first i tags of the loop, each indexed without a database error. */
  ghost predicate RunPrefix(tags: seq<TagRef>, fullRepo: string, clone: Clone, faults: DbFaults, normalize: Bytes -> Normalized,
                            states: seq<Snapshot>, runs: seq<TagRun>, i: nat)
  {
    i <= |tags| && |runs| == i && |states| == i + 1 &&
    (forall j :: 0 <= j < i ==>
       TagStepEffect(tags[j], fullRepo, clone, faults, normalize, states[j], states[j + 1], runs[j])) &&
    (forall j :: 0 <= j < i ==> runs[j].step != Failed)
  }

  /** One more tag: the prefix grows when it succeeds; when it fails, the
      run is over with an error. */
  lemma RunPrefixStep(tags: seq<TagRef>, fullRepo: string, clone: Clone, faults: DbFaults, normalize: Bytes -> Normalized,
                      states: seq<Snapshot>, runs: seq<TagRun>, i: nat, s: Snapshot, run: TagRun)
    requires RunPrefix(tags, fullRepo, clone, faults, normalize, states, runs, i) && i < |tags|
    requires TagStepEffect(tags[i], fullRepo, clone, faults, normalize, states[i], s, run)
    ensures run.step != Failed ==> RunPrefix(tags, fullRepo, clone, faults, normalize, states + [s], runs + [run], i + 1)
    ensures run.step == Failed ==> Runs(tags, fullRepo, clone, faults, normalize, states + [s], runs + [run], true)
  {
    var states', runs' := states + [s], runs + [run];
    forall j | 0 <= j < i + 1
      ensures TagStepEffect(tags[j], fullRepo, clone, faults, normalize, states'[j], states'[j + 1], runs'[j])
    {
      if j < i {
        assert states'[j] == states[j] && states'[j + 1] == states[j + 1] && runs'[j] == runs[j];
      }
    }
  }

  /** A prefix that covers every tag is a run without an error. */
  lemma RunPrefixDone(tags: seq<TagRef>, fullRepo: string, clone: Clone, faults: DbFaults, normalize: Bytes -> Normalized,
                      states: seq<Snapshot>, runs: seq<TagRun>)
    requires RunPrefix(tags, fullRepo, clone, faults, normalize, states, runs, |tags|)
    ensures Runs(tags, fullRepo, clone, faults, normalize, states, runs, false)
  {
  }

  /** The loop over the tags, as a run of steps: each tag indexed moves the
      store from one state to the next; every step but the last ends without
      a database error; the run stops with an error exactly when its last
      step failed, and otherwise covers every tag. */
  ghost predicate Runs(tags: seq<TagRef>, fullRepo: string, clone: Clone, faults: DbFaults, normalize: Bytes -> Normalized,
                       states: seq<Snapshot>, runs: seq<TagRun>, err: bool)
  {
    |runs| <= |tags| && |states| == |runs| + 1 &&
    (forall j :: 0 <= j < |runs| ==>
       TagStepEffect(tags[j], fullRepo, clone, faults, normalize, states[j], states[j + 1], runs[j])) &&
    (forall j :: 0 <= j < |runs| - 1 ==> runs[j].step != Failed) &&
    (err <==> |runs| > 0 && runs[|runs| - 1].step == Failed) &&
    (!err ==> |runs| == |tags|)
  }

  // ---------------------------------------------------------------------
  // Flattening the configuration
  // ---------------------------------------------------------------------

  /** repos.yaml: org -> repo -> tags. */
  type Config = map<string, map<string, seq<string>>>

  /** How often a unit is listed by the configuration. */
  ghost function Listed(config: Config, u: GitterRepo): nat
  {
    if u.org in config && u.repo in config[u.org] then multiset(config[u.org][u.repo])[u.tag] else 0
  }

  /** Walks the orgs (in Go's map order, chosen here), their repos and the tags
      of each repo in order, producing one unit per listed tag: each
      (org, repo, tag) as often as the configuration lists it, and no other. */
  method FlattenConfig(config: Config) returns (units: seq<GitterRepo>)
    ensures forall u :: multiset(units)[u] == Listed(config, u)
    ensures forall u :: u in units <==> u.org in config && u.repo in config[u.org] && u.tag in config[u.org][u.repo]
  {
    units := [];
    var orgs := config.Keys;
    while orgs != {}
      invariant orgs <= config.Keys
      invariant forall u :: multiset(units)[u] == if u.org !in orgs then Listed(config, u) else 0
      decreases |orgs|
    {
      var org :| org in orgs;
      units := AppendOrg(units, org, config[org]);
      orgs := orgs - {org};
    }
    forall u ensures u in units <==> u.org in config && u.repo in config[u.org] && u.tag in config[u.org][u.repo] {
      assert u in units <==> multiset(units)[u] > 0;
    }
  }

  ghost function Names(tags: seq<TagRef>): set<string>
  {
    set t | t in tags :: t.name
  }

  /** One more step of Index's loop keeps what the loop knows about the
      rows added since it started: the tables only grow, added CRD rows
      belong to the repository's tags, and every CRD row still has its tag. */
  lemma RowsAddedStep(t0: map<TagKey, TagRow>, c0: map<CrdKey, CrdRow>,
                      t1: map<TagKey, TagRow>, c1: map<CrdKey, CrdRow>,
                      t2: map<TagKey, TagRow>, c2: map<CrdKey, CrdRow>, repo: string)
    requires SubMap(t0, t1) && SubMap(c0, c1) && SubMap(t1, t2) && SubMap(c1, c2)
    requires forall c :: c in c1 && c !in c0 ==> c.tagId in RepoIds(t1, repo)
    requires forall c :: c in c2 && c !in c1 ==> c.tagId in RepoIds(t2, repo)
    requires (forall c :: c in c0 ==> c.tagId in AllIds(t0)) ==> (forall c :: c in c1 ==> c.tagId in AllIds(t1))
    ensures SubMap(t0, t2) && SubMap(c0, c2)
    ensures forall c :: c in c2 && c !in c0 ==> c.tagId in RepoIds(t2, repo)
    ensures (forall c :: c in c0 ==> c.tagId in AllIds(t0)) ==> (forall c :: c in c2 ==> c.tagId in AllIds(t2))
  {
    IdsGrow(t1, t2, repo);
    RepoIdsWithin(t2, repo);
    forall c | c in c2 && c !in c0 ensures c.tagId in RepoIds(t2, repo) {
      if c in c1 {
        assert c.tagId in RepoIds(t1, repo);
      }
    }
  }

  /** What one tag step does to the tables: they only grow, the only new tag
      row is the tag's own, new CRD rows belong to a tag row of the
      repository, and a step that does not fail on a resolvable commit
      leaves the tag with its row. */
  lemma StepFacts(t: TagRef, fullRepo: string, clone: Clone, faults: DbFaults, normalize: Bytes -> Normalized,
                  s0: Snapshot, s1: Snapshot, run: TagRun)
    requires TagStepEffect(t, fullRepo, clone, faults, normalize, s0, s1, run)
    ensures SubMap(s0.tags, s1.tags) && SubMap(s0.crds, s1.crds)
    ensures forall k :: k in s1.tags && k !in s0.tags ==> k == TagKey(t.name, fullRepo)
    ensures forall c :: c in s1.crds && c !in s0.crds ==> c.tagId in RepoIds(s1.tags, fullRepo)
    ensures run.step != Failed && clone.commitTime(t.hash).Some? ==> TagKey(t.name, fullRepo) in s1.tags
  {
    var key := TagKey(t.name, fullRepo);
    var time := clone.commitTime(t.hash);
    if time.Some? && !(t.name in faults.lookup || (key !in s0.tags && t.name in faults.insertTag)) {
      var id := s1.tags[key].id;
      assert id as int in RepoIds(s1.tags, fullRepo);
      var tree := clone.tree(t.hash);
      if tree.Some? && |run.found| > 0 && t.name !in faults.insertCrds {
        NewRowsCarryTag(s0.crds, run.keys, run.found, id);
        InsertIgnoringGrows(s0.crds, EntriesOf(run.keys, run.found, id));
      }
    }
  }

  /** What the first n steps of a run leave behind, from states[0] to states[n]. */
  ghost predicate Kept(tags: seq<TagRef>, fullRepo: string, clone: Clone, s0: Snapshot, s: Snapshot,
                       runs: seq<TagRun>, n: nat)
    requires n <= |runs| <= |tags|
  {
    SubMap(s0.tags, s.tags) && SubMap(s0.crds, s.crds) &&
    (forall k :: k in s.tags && k !in s0.tags ==> k.repo == fullRepo && k.name in Names(tags)) &&
    (forall c :: c in s.crds && c !in s0.crds ==> c.tagId in RepoIds(s.tags, fullRepo)) &&
    ((forall c :: c in s0.crds ==> c.tagId in AllIds(s0.tags)) ==> (forall c :: c in s.crds ==> c.tagId in AllIds(s.tags))) &&
    (forall j :: 0 <= j < n && runs[j].step != Failed && clone.commitTime(tags[j].hash).Some? ==>
       TagKey(tags[j].name, fullRepo) in s.tags)
  }

  /** Over a run the tables only grow, new tag rows are the repository's
      listed tags, new CRD rows belong to the repository's tag rows, every
      CRD row keeps its tag row, and each tag that did not fail on a
      resolvable commit has its row. */
  lemma {:induction false} RunsKept(tags: seq<TagRef>, fullRepo: string, clone: Clone, faults: DbFaults,
                                    normalize: Bytes -> Normalized, states: seq<Snapshot>, runs: seq<TagRun>, err: bool, n: nat)
    requires Runs(tags, fullRepo, clone, faults, normalize, states, runs, err) && n <= |runs|
    ensures Kept(tags, fullRepo, clone, states[0], states[n], runs, n)
  {
    if n > 0 {
      var m := n - 1;
      RunsKept(tags, fullRepo, clone, faults, normalize, states, runs, err, m);
      assert TagStepEffect(tags[m], fullRepo, clone, faults, normalize, states[m], states[n], runs[m]);
      StepFacts(tags[m], fullRepo, clone, faults, normalize, states[m], states[n], runs[m]);
      KeptStep(tags, fullRepo, clone, states[0], states[m], states[n], runs, m);
    }
  }

  /** Kept extends by one step whose effect StepFacts describes. */
  lemma KeptStep(tags: seq<TagRef>, fullRepo: string, clone: Clone, s0: Snapshot, sm: Snapshot, sn: Snapshot,
                 runs: seq<TagRun>, m: nat)
    requires m < |runs| <= |tags| && Kept(tags, fullRepo, clone, s0, sm, runs, m)
    requires SubMap(sm.tags, sn.tags) && SubMap(sm.crds, sn.crds)
    requires forall k :: k in sn.tags && k !in sm.tags ==> k == TagKey(tags[m].name, fullRepo)
    requires forall c :: c in sn.crds && c !in sm.crds ==> c.tagId in RepoIds(sn.tags, fullRepo)
    requires runs[m].step != Failed && clone.commitTime(tags[m].hash).Some? ==> TagKey(tags[m].name, fullRepo) in sn.tags
    ensures Kept(tags, fullRepo, clone, s0, sn, runs, m + 1)
  {
    RowsAddedStep(s0.tags, s0.crds, sm.tags, sm.crds, sn.tags, sn.crds, fullRepo);
    assert tags[m].name in Names(tags);
  }

  /** At the end of a run, what Kept says of the whole run, and on success
      every tag with a resolvable commit has its row. */
  lemma RunsDone(tags: seq<TagRef>, fullRepo: string, clone: Clone, faults: DbFaults,
                 normalize: Bytes -> Normalized, states: seq<Snapshot>, runs: seq<TagRun>, err: bool)
    requires Runs(tags, fullRepo, clone, faults, normalize, states, runs, err)
    ensures Kept(tags, fullRepo, clone, states[0], states[|runs|], runs, |runs|)
    ensures !err ==> forall t :: t in tags && clone.commitTime(t.hash).Some? ==> TagKey(t.name, fullRepo) in states[|runs|].tags
  {
    RunsKept(tags, fullRepo, clone, faults, normalize, states, runs, err, |runs|);
    if !err {
      forall t | t in tags && clone.commitTime(t.hash).Some?
        ensures TagKey(t.name, fullRepo) in states[|runs|].tags
      {
        var j :| 0 <= j < |tags| && tags[j] == t;
      }
    }
  }

  /** Tables only grow from one state of a run to any later one. */
  lemma {:induction false} RunGrows(tags: seq<TagRef>, fullRepo: string, clone: Clone, faults: DbFaults,
                                    normalize: Bytes -> Normalized, states: seq<Snapshot>, runs: seq<TagRun>, err: bool,
                                    a: nat, n: nat)
    requires Runs(tags, fullRepo, clone, faults, normalize, states, runs, err) && a <= n <= |runs|
    ensures SubMap(states[a].tags, states[n].tags) && SubMap(states[a].crds, states[n].crds)
    decreases n - a
  {
    if a < n {
      assert TagStepEffect(tags[a], fullRepo, clone, faults, normalize, states[a], states[a + 1], runs[a]);
      StepFacts(tags[a], fullRepo, clone, faults, normalize, states[a], states[a + 1], runs[a]);
      RunGrows(tags, fullRepo, clone, faults, normalize, states, runs, err, a + 1, n);
    }
  }

  /** Every CRD a tag of the run found and stored is in the crds table at the
      end of the run, filed under the id of that tag's row. */
  lemma StoredCrdsStay(tags: seq<TagRef>, fullRepo: string, clone: Clone, faults: DbFaults,
                       normalize: Bytes -> Normalized, states: seq<Snapshot>, runs: seq<TagRun>, err: bool,
                       j: nat, key: string)
    requires Runs(tags, fullRepo, clone, faults, normalize, states, runs, err) && j < |runs|
    requires clone.commitTime(tags[j].hash).Some? && clone.tree(tags[j].hash).Some?
    requires runs[j].step == Indexed && key in runs[j].found
    ensures TagKey(tags[j].name, fullRepo) in states[|runs|].tags
    ensures var c := runs[j].found[key];
            CrdKey(states[|runs|].tags[TagKey(tags[j].name, fullRepo)].id, c.group, c.version, c.kind) in states[|runs|].crds
  {
    var s0, s1, run := states[j], states[j + 1], runs[j];
    assert TagStepEffect(tags[j], fullRepo, clone, faults, normalize, s0, s1, run);
    var tk := TagKey(tags[j].name, fullRepo);
    var id := s1.tags[tk].id;
    var c := run.found[key];
    assert s1.crds == InsertIgnoring(s0.crds, EntriesOf(run.keys, run.found, id));
    var i :| 0 <= i < |run.keys| && run.keys[i] == key;
    EntriesOfTag(run.keys, run.found, id, i);
    InsertIgnoringGrows(s0.crds, EntriesOf(run.keys, run.found, id));
    assert EntriesOf(run.keys, run.found, id)[i].0 == CrdKey(id, c.group, c.version, c.kind);
    RunGrows(tags, fullRepo, clone, faults, normalize, states, runs, err, j + 1, |runs|);
  }

  /** The rows a batch adds carry the batch's tag id. */
  lemma NewRowsCarryTag(before: map<CrdKey, CrdRow>, keys: seq<string>, repoCrds: map<string, RepoCrd>, tagId: int)
    requires forall k :: k in keys ==> k in repoCrds
    ensures forall c :: c in InsertIgnoring(before, EntriesOf(keys, repoCrds, tagId)) && c !in before ==> c.tagId == tagId
  {
    var rows := EntriesOf(keys, repoCrds, tagId);
    InsertIgnoringGrows(before, rows);
    EntriesOfSize(keys, repoCrds, tagId);
    forall c | c in InsertIgnoring(before, rows) && c !in before ensures c.tagId == tagId {
      var i :| 0 <= i < |rows| && rows[i].0 == c;
      EntriesOfTag(keys, repoCrds, tagId, i);
    }
  }
}
