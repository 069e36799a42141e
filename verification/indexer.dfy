/** The procedures the two indexers (cmd/gitter and docs-generator/gitter)
    carry as identical copies: the VALUES-list builder, the YAML splitter,
    the reading of the grep hits, the GVK-keyed accumulation of one tag's
    CRDs and the batch insert of those CRDs. Each is proved against the
    specification functions of InsertQuery, YamlSplit, CrdIndex and Catalog. */
module Indexer {
  import opened Strings
  import opened InsertQuery
  import opened YamlSplit
  import opened CrdIndex
  import opened Catalog

  /** crdArgCount: the columns of one crds row. */
  const CrdArgCount: nat := 6

  /** The statement prefix both indexers hand to buildInsert. */
  const CrdInsertPrefix: string := "INSERT INTO crds(\"group\", version, kind, tag_id, filename, data) VALUES "

  /** models.GitterRepo: one (org, repo, tag) unit of work. */
  datatype GitterRepo = GitterRepo(org: string, repo: string, tag: string)

  // ---------------------------------------------------------------------
  // Flattening the configuration into units
  // ---------------------------------------------------------------------

  /** The innermost loop: one unit per tag of one repo, in tag order. */
  method AppendUnits(units: seq<GitterRepo>, org: string, repo: string, tags: seq<string>) returns (r: seq<GitterRepo>)
    ensures forall u :: multiset(r)[u] ==
              multiset(units)[u] + if u.org == org && u.repo == repo then multiset(tags)[u.tag] else 0
  {
    r := units;
    var j := 0;
    while j < |tags|
      invariant 0 <= j <= |tags|
      invariant forall u :: multiset(r)[u] ==
                  multiset(units)[u] + if u.org == org && u.repo == repo then multiset(tags[..j])[u.tag] else 0
    {
      assert tags[..j + 1] == tags[..j] + [tags[j]];
      r := r + [GitterRepo(org, repo, tags[j])];
      j := j + 1;
    }
    assert tags[..|tags|] == tags;
  }

  /** The middle loop: the units of every repo of one org (in Go's map order, chosen here). */
  method AppendOrg(units: seq<GitterRepo>, org: string, repos: map<string, seq<string>>) returns (r: seq<GitterRepo>)
    ensures forall u :: multiset(r)[u] ==
              multiset(units)[u] + if u.org == org && u.repo in repos then multiset(repos[u.repo])[u.tag] else 0
  {
    r := units;
    var repoNames := repos.Keys;
    while repoNames != {}
      invariant repoNames <= repos.Keys
      invariant forall u :: multiset(r)[u] ==
                  multiset(units)[u] + if u.org == org && u.repo in repos && u.repo !in repoNames then multiset(repos[u.repo])[u.tag] else 0
      decreases |repoNames|
    {
      var repo :| repo in repoNames;
      r := AppendUnits(r, org, repo, repos[repo]);
      repoNames := repoNames - {repo};
    }
  }

  // ---------------------------------------------------------------------
  // Repository identity, clone options and the checked-out tree
  // ---------------------------------------------------------------------

  /** fullRepo: `github.com/<org>/<repo>`, owner and name lower-cased. */
  function FullRepo(org: string, repo: string): string
  {
    "github.com/" + ToLower(org) + "/" + ToLower(repo)
  }

  /** For an owner and a name without slashes, the identity has exactly
      three slash-separated segments: the host, then the lower-cased owner
      and name. */
  lemma FullRepoSegments(org: string, repo: string)
    requires '/' !in org && '/' !in repo
    ensures Split(FullRepo(org, repo), '/') == ["github.com", ToLower(org), ToLower(repo)]
  {
    ToLowerKeeps(org, '/');
    ToLowerKeeps(repo, '/');
    SplitNoSep("github.com", '/');
    SplitAppendSegment("github.com", ToLower(org), '/');
    SplitAppendSegment("github.com/" + ToLower(org), ToLower(repo), '/');
    assert FullRepo(org, repo) == "github.com/" + ToLower(org) + "/" + ToLower(repo);
    assert "github.com/" + ToLower(org) == "github.com" + ['/'] + ToLower(org);
    assert FullRepo(org, repo) == ("github.com/" + ToLower(org)) + ['/'] + ToLower(repo);
  }

  /** The identity does not depend on the case of owner and name. */
  lemma FullRepoCaseInsensitive(org: string, repo: string)
    ensures FullRepo(ToLower(org), ToLower(repo)) == FullRepo(org, repo)
  {
    ToLowerIdempotent(org);
    ToLowerIdempotent(repo);
  }

  /** The clone URL of a repository: its identity behind `https://`. */
  lemma CloneUrl(org: string, repo: string)
    ensures "https://" + FullRepo(org, repo) == "https://github.com/" + ToLower(org) + "/" + ToLower(repo)
  {
    var o, r := ToLower(org), ToLower(repo);
    assert "https://" + "github.com/" == "https://github.com/";
    calc {
      "https://" + FullRepo(org, repo);
      "https://" + ("github.com/" + o + "/" + r);
      ("https://" + "github.com/") + o + "/" + r;
    }
  }

  /** plumbing.NewTagReferenceName and plumbing.NewBranchReferenceName. */
  function TagReference(tag: string): string { "refs/tags/" + tag }
  function BranchReference(branch: string): string { "refs/heads/" + branch }

  /** The git.CloneOptions fields the indexers set; an empty reference is the
      remote's default HEAD. Progress output and submodule handling (never
      recursed) are not modelled. */
  datatype CloneOptions = CloneOptions(url: string, depth: nat, reference: string, singleBranch: bool)

  /** What the checked-out tree shows grep: the worktree paths in the order
      grep visits them, whether a path has a line matching
      `kind: CustomResourceDefinition`, and the contents of each readable
      path as its decoder outcomes. */
  datatype Tree = Tree(paths: seq<string>, hasCrdLine: string -> bool, read: string -> Option<seq<DecodeStep>>)

  /** The grep hits: the paths whose name passes the path filter and whose
      contents mention a CRD, in visiting order. */
  function GrepHits(paths: seq<string>, pathOk: string -> bool, hasCrdLine: string -> bool): (hits: seq<string>)
    ensures forall p :: p in hits <==> p in paths && pathOk(p) && hasCrdLine(p)
  {
    if paths == [] then []
    else
      var init := GrepHits(paths[..|paths| - 1], pathOk, hasCrdLine);
      var p := paths[|paths| - 1];
      assert paths == paths[..|paths| - 1] + [p];
      if pathOk(p) && hasCrdLine(p) then init + [p] else init
  }

  /** The files map getYAMLs builds for a tree under a path filter. */
  function TreeFiles(tree: Tree, pathOk: string -> bool): Files
  {
    YamlsOf(GrepHits(tree.paths, pathOk, tree.hasCrdLine), tree.read)
  }

  /** A file is in the map exactly when it passes the path filter, mentions a
      CRD and can be read. */
  lemma TreeFilesAt(tree: Tree, pathOk: string -> bool, f: string)
    ensures f in TreeFiles(tree, pathOk) <==> f in tree.paths && pathOk(f) && tree.hasCrdLine(f) && tree.read(f).Some?
    ensures f in TreeFiles(tree, pathOk) ==> TreeFiles(tree, pathOk)[f] == SplitResult(tree.read(f).value)
  {
    YamlsOfAt(GrepHits(tree.paths, pathOk, tree.hasCrdLine), tree.read, f);
  }

  /** The part of getCRDsFromTag after the grep: read and split the hits,
      then collect the CRDs. */
  method CrdsOfTree(tree: Tree, pathOk: string -> bool, normalize: Bytes -> Normalized)
      returns (repoCrds: map<string, RepoCrd>, ghost order: seq<string>)
    ensures Enumerates(order, TreeFiles(tree, pathOk).Keys)
    ensures forall f :: f in order ==> f in TreeFiles(tree, pathOk)
    ensures repoCrds == AbsorbFiles(order, TreeFiles(tree, pathOk), normalize)
    ensures forall key :: key in repoCrds <==> Declared(TreeFiles(tree, pathOk), normalize, key)
    ensures forall key :: key in repoCrds ==> repoCrds[key].path == key
  {
    var greps := GrepHits(tree.paths, pathOk, tree.hasCrdLine);
    var files := GetYamls(greps, tree.read);
    repoCrds, order := CollectCrds(files, normalize);
  }

  // ---------------------------------------------------------------------
  // buildInsert
  // ---------------------------------------------------------------------

  /** Appends numInsert groups of argsPerInsert placeholders to query, with a
      running parameter counter. A negative count runs no iteration. */
  method BuildInsert(query: string, argsPerInsert: int, numInsert: int) returns (r: string)
    ensures r == query + Render(Numbering(Count(argsPerInsert), Count(numInsert)))
  {
    ghost var k := Count(argsPerInsert);
    r := query;
    var absArg := 1;
    var i := 0;
    while i < numInsert
      invariant 0 <= i <= Count(numInsert)
      invariant absArg == i * k + 1
      invariant r == query + Render(Numbering(k, i)) + (if 0 < i < numInsert then "," else "")
    {
      var list;
      list, absArg := AppendPlaceholders(argsPerInsert, absArg);
      GroupAppended(query, k, i, r, list);
      r := r + "(" + list + ")";
      NextRowStart(k, i);
      if i != numInsert - 1 {
        r := r + ",";
      }
      i := i + 1;
    }
  }

  /** from, from+1, ..., from+k-1. */
  function Consecutive(k: nat, from: nat): seq<nat>
  {
    seq(k, j requires 0 <= j < k => from + j)
  }

  /** Closing the next group after the text built so far extends the list by that group. */
  lemma GroupAppended(query: string, k: nat, i: nat, r: string, list: string)
    requires r == query + Render(Numbering(k, i)) + (if i > 0 then "," else "")
    requires list == PlaceholderList(Consecutive(k, i * k + 1))
    ensures r + "(" + list + ")" == query + Render(Numbering(k, i + 1))
  {
    RowIsConsecutive(k, i);
    GroupStep(k, i);
    if i == 0 {
      assert Numbering(k, 0) == [];
    }
    TextAppended(query, Render(Numbering(k, i)), list, i, r);
  }

  /** The string steps of GroupAppended, apart from what is rendered. */
  lemma TextAppended(query: string, prev: string, list: string, i: nat, r: string)
    requires r == query + prev + (if i > 0 then "," else "")
    requires i == 0 ==> prev == ""
    ensures r + "(" + list + ")" == query + ((if i == 0 then "" else prev + ",") + ("(" + list + ")"))
  {
  }

  lemma NextRowStart(k: nat, i: nat)
    ensures (i + 1) * k + 1 == i * k + 1 + k
  {
  }

  lemma RowIsConsecutive(k: nat, i: nat)
    ensures Row(k, i) == Consecutive(k, i * k + 1)
  {
  }

  /** The inner loop of buildInsert: the comma-separated placeholders of one
      group, numbered on from absArg; returns the list and the next number. */
  method AppendPlaceholders(argsPerInsert: int, absArg: nat) returns (list: string, next: nat)
    ensures list == PlaceholderList(Consecutive(Count(argsPerInsert), absArg))
    ensures next == absArg + Count(argsPerInsert)
  {
    ghost var k := Count(argsPerInsert);
    ghost var nums := Consecutive(k, absArg);
    list := "";
    next := absArg;
    var j := 0;
    while j < argsPerInsert
      invariant 0 <= j <= k
      invariant next == absArg + j
      invariant list == PlaceholderList(nums[..j]) + (if 0 < j < argsPerInsert then "," else "")
    {
      ghost var prev := list;
      list := list + "$" + Dec(next);
      assert list == prev + Placeholder(nums[j]);
      if j == 0 {
        assert nums[..1] == [nums[0]];
      } else {
        assert nums[..j + 1] == nums[..j] + [nums[j]];
        PlaceholderListSnoc(nums[..j], nums[j]);
      }
      if j != argsPerInsert - 1 {
        list := list + ",";
      }
      next := next + 1;
      j := j + 1;
    }
    assert nums[..k] == nums;
  }

  /** One more group in the list. */
  lemma GroupStep(k: nat, i: nat)
    ensures Render(Numbering(k, i + 1)) ==
            (if i == 0 then "" else Render(Numbering(k, i)) + ",") + Group(Row(k, i))
  {
    NumberingSnoc(k, i);
    if i == 0 {
      assert Numbering(k, 1) == [Row(k, 0)];
    } else {
      RenderSnoc(Numbering(k, i), Row(k, i));
    }
  }

  // ---------------------------------------------------------------------
  // splitYAML
  // ---------------------------------------------------------------------

  /** Decodes document after document until the stream ends, re-encoding each.
      A document that fails to decode or to re-encode is skipped; a panic
      unwinds to the deferred recover, and because the results are unnamed
      the function then returns its zero values. The error it returns is the
      outer `err`, which nothing assigns: it is always nil. */
  method SplitYaml(steps: seq<DecodeStep>) returns (yamls: seq<Bytes>, err: Option<string>)
    ensures yamls == SplitResult(steps)
    ensures err == None
  {
    err := None;
    yamls := [];
    var i := 0;
    while i < |steps|
      invariant 0 <= i <= |steps|
      invariant yamls == Kept(steps[..i])
      invariant !HasPanic(steps[..i])
    {
      var step := steps[i];
      assert steps[..i + 1][..i] == steps[..i];
      if step.Panicked? {
        assert HasPanic(steps);
        return [], None;
      }
      if step.Decoded? && step.encoded.Some? {
        yamls := yamls + [step.encoded.value];
      }
      assert !HasPanic(steps[..i + 1]) by {
        var done := steps[..i + 1];
        forall p | 0 <= p < i + 1 ensures !done[p].Panicked? {
          if p < i { assert done[p] == steps[..i][p]; }
        }
      }
      i := i + 1;
    }
    assert steps[..|steps|] == steps;
  }

  // ---------------------------------------------------------------------
  // getYAMLs
  // ---------------------------------------------------------------------

  /** The files map getYAMLs builds from the grep hits, in hit order: a file
      that can be read is stored under its name with its split documents. */
  function YamlsOf(greps: seq<string>, read: string -> Option<seq<DecodeStep>>): Files
  {
    if greps == [] then map[]
    else
      var m := YamlsOf(greps[..|greps| - 1], read);
      var f := greps[|greps| - 1];
      if read(f).Some? then m[f := SplitResult(read(f).value)] else m
  }

  /** A file is in the map exactly when it was hit and could be read, and it
      holds the split of its contents; repeated hits change nothing. */
  lemma {:induction false} YamlsOfAt(greps: seq<string>, read: string -> Option<seq<DecodeStep>>, f: string)
    ensures f in YamlsOf(greps, read) <==> f in greps && read(f).Some?
    ensures f in YamlsOf(greps, read) ==> YamlsOf(greps, read)[f] == SplitResult(read(f).value)
  {
    if greps != [] {
      var init := greps[..|greps| - 1];
      YamlsOfAt(init, read, f);
      assert greps == init + [greps[|greps| - 1]];
    }
  }

  /** Reads and splits every grep hit; an unreadable file is skipped. `read`
      stands for os.ReadFile of dir + "/" + name on the checked-out tree. */
  method GetYamls(greps: seq<string>, read: string -> Option<seq<DecodeStep>>) returns (files: Files)
    ensures files == YamlsOf(greps, read)
  {
    files := map[];
    var i := 0;
    while i < |greps|
      invariant 0 <= i <= |greps|
      invariant files == YamlsOf(greps[..i], read)
    {
      var name := greps[i];
      assert greps[..i + 1][..i] == greps[..i];
      var b := read(name);
      if b.Some? {
        var yamls, err := SplitYaml(b.value);
        if err.None? {
          files := files[name := yamls];
        }
      }
      i := i + 1;
    }
    assert greps[..|greps|] == greps;
  }

  // ---------------------------------------------------------------------
  // getCRDsFromTag: the accumulation loop
  // ---------------------------------------------------------------------

  /** order lists every key exactly once. */
  ghost predicate Enumerates<K>(order: seq<K>, keys: set<K>)
  {
    (forall i :: 0 <= i < |order| ==> order[i] in keys) &&
    (forall k :: k in keys ==> k in order) &&
    (forall i, j :: 0 <= i < j < |order| ==> order[i] != order[j])
  }

  /** Part way through a walk over a set: the keys visited so far, each once,
      and the keys still to visit. */
  ghost predicate Walked<K>(order: seq<K>, rest: set<K>, keys: set<K>)
  {
    rest <= keys &&
    (forall i :: 0 <= i < |order| ==> order[i] in keys && order[i] !in rest) &&
    (forall k :: k in keys ==> k in rest || k in order) &&
    (forall i, j :: 0 <= i < j < |order| ==> order[i] != order[j])
  }

  /** Visiting one more key keeps the walk going. */
  lemma WalkStep<K>(order: seq<K>, rest: set<K>, keys: set<K>, k: K)
    requires Walked(order, rest, keys) && k in rest
    ensures Walked(order + [k], rest - {k}, keys)
  {
  }

  /** A walk with nothing left to visit enumerates the set. */
  lemma WalkDone<K>(order: seq<K>, keys: set<K>)
    requires Walked(order, {}, keys)
    ensures Enumerates(order, keys)
  {
  }

  lemma {:induction false} EnumeratesSize<K>(order: seq<K>, keys: set<K>)
    requires Enumerates(order, keys)
    ensures |order| == |keys|
  {
    if order != [] {
      var last := order[|order| - 1];
      var init := order[..|order| - 1];
      forall k | k in keys - {last} ensures k in init {
        var i :| 0 <= i < |order| && order[i] == k;
        assert i < |order| - 1;
        assert init[i] == k;
      }
      EnumeratesSize(init, keys - {last});
    }
  }

  /** Walks the files (in Go's map order, chosen here) and their documents,
      storing every document the normaliser accepts under its GVK key. */
  method CollectCrds(files: Files, normalize: Bytes -> Normalized)
      returns (repoCrds: map<string, RepoCrd>, ghost order: seq<string>)
    ensures Enumerates(order, files.Keys)
    ensures forall f :: f in order ==> f in files
    ensures repoCrds == AbsorbFiles(order, files, normalize)
    ensures forall key :: key in repoCrds <==> Declared(files, normalize, key)
    ensures forall key :: key in repoCrds ==> repoCrds[key].path == key
  {
    repoCrds := map[];
    order := [];
    var rest := files.Keys;
    while rest != {}
      invariant Walked(order, rest, files.Keys)
      invariant forall f :: f in order ==> f in files
      invariant repoCrds == AbsorbFiles(order, files, normalize)
      decreases |rest|
    {
      var file :| file in rest;
      var yamls := files[file];
      ghost var acc := repoCrds;
      var j := 0;
      while j < |yamls|
        invariant 0 <= j <= |yamls|
        invariant repoCrds == AbsorbDocs(acc, file, yamls[..j], normalize)
      {
        var y := yamls[j];
        assert yamls[..j + 1][..j] == yamls[..j];
        var crder := normalize(y);
        if crder.NotCrd? {
          // NewCRDer failed or gave no CRD
        } else if crder.MarshalFailed? {
          // json.Marshal failed
        } else {
          var key := PrettyGvk(crder.gvk);
          repoCrds := repoCrds[key := RepoCrd(key, Base(file), crder.gvk.group, crder.gvk.version, crder.gvk.kind, crder.data)];
        }
        j := j + 1;
      }
      assert yamls[..|yamls|] == yamls;
      assert (order + [file])[..|order|] == order;
      WalkStep(order, rest, files.Keys, file);
      order := order + [file];
      rest := rest - {file};
    }
    WalkDone(order, files.Keys);
    AbsorbFilesKeys(order, files, normalize);
  }

  // ---------------------------------------------------------------------
  // The batch insert of one tag's CRDs
  // ---------------------------------------------------------------------

  /** The crds row stored for a found CRD under a tag id. */
  function EntryOf(tagId: int, c: RepoCrd): CrdEntry
  {
    (CrdKey(tagId, c.group, c.version, c.kind), CrdRow(c.filename, c.crd))
  }

  /** The rows of the found CRDs, in the order of keys. */
  function EntriesOf(keys: seq<string>, repoCrds: map<string, RepoCrd>, tagId: int): seq<CrdEntry>
    requires forall k :: k in keys ==> k in repoCrds
  {
    if keys == [] then []
    else EntriesOf(keys[..|keys| - 1], repoCrds, tagId) + [EntryOf(tagId, repoCrds[keys[|keys| - 1]])]
  }

  /** Collects group, version, kind, tagID, filename, data of every found CRD
      (in Go's map order, chosen here). */
  method CollectArgs(repoCrds: map<string, RepoCrd>, tagId: int) returns (args: seq<Arg>, ghost keys: seq<string>)
    ensures Enumerates(keys, repoCrds.Keys)
    ensures forall k :: k in keys ==> k in repoCrds
    ensures args == ArgsOf(EntriesOf(keys, repoCrds, tagId))
    ensures |args| == CrdArgCount * |repoCrds|
  {
    args := [];
    keys := [];
    var rest := repoCrds.Keys;
    while rest != {}
      invariant Walked(keys, rest, repoCrds.Keys)
      invariant forall k :: k in keys ==> k in repoCrds
      invariant args == ArgsOf(EntriesOf(keys, repoCrds, tagId))
      decreases |rest|
    {
      var key :| key in rest;
      var c := repoCrds[key];
      args := args + [Text(c.group), Text(c.version), Text(c.kind), Int(tagId), Text(c.filename), Blob(c.crd)];
      assert (keys + [key])[..|keys|] == keys;
      WalkStep(keys, rest, repoCrds.Keys, key);
      keys := keys + [key];
      rest := rest - {key};
    }
    WalkDone(keys, repoCrds.Keys);
    EnumeratesSize(keys, repoCrds.Keys);
    EntriesOfSize(keys, repoCrds, tagId);
    BindArgsOf(EntriesOf(keys, repoCrds, tagId));
  }

  /** Every row of a batch carries the batch's tag id. */
  lemma {:induction false} EntriesOfTag(keys: seq<string>, repoCrds: map<string, RepoCrd>, tagId: int, i: nat)
    requires forall k :: k in keys ==> k in repoCrds
    requires i < |keys|
    ensures |EntriesOf(keys, repoCrds, tagId)| == |keys|
    ensures EntriesOf(keys, repoCrds, tagId)[i] == EntryOf(tagId, repoCrds[keys[i]])
  {
    EntriesOfSize(keys, repoCrds, tagId);
    if i < |keys| - 1 {
      EntriesOfTag(keys[..|keys| - 1], repoCrds, tagId, i);
    }
  }

  lemma {:induction false} EntriesOfSize(keys: seq<string>, repoCrds: map<string, RepoCrd>, tagId: int)
    requires forall k :: k in keys ==> k in repoCrds
    ensures |EntriesOf(keys, repoCrds, tagId)| == |keys|
  {
    if keys != [] {
      EntriesOfSize(keys[..|keys| - 1], repoCrds, tagId);
    }
  }

  /** The statement built for a batch has exactly one placeholder per bound
      argument, numbered 1 .. 6n in order, and the driver binds the argument
      list back to exactly the rows it was built from. */
  lemma BatchStatementBinds(rows: seq<CrdEntry>)
    ensures var s := CrdInsertPrefix + Render(Numbering(CrdArgCount, |rows|));
            ParseValues(s[|CrdInsertPrefix|..]) == Some(Numbering(CrdArgCount, |rows|)) &&
            Flatten(Numbering(CrdArgCount, |rows|)) == seq(|ArgsOf(rows)|, p requires 0 <= p => p + 1) &&
            BindRows(ArgsOf(rows)) == Some(rows)
  {
    InsertStatementShape(CrdInsertPrefix, CrdArgCount, |rows|);
    NumberingFlat(CrdArgCount, |rows|);
    BindArgsOf(rows);
  }

  /** Builds the argument list and the statement for the found CRDs and runs
      it; the driver binds the i-th group of placeholders to the i-th row.
      `fault` is whether Exec returns an error. */
  method InsertBatch(db: Catalog, repoCrds: map<string, RepoCrd>, tagId: int, fault: bool)
      returns (ok: bool, ghost keys: seq<string>)
    modifies db
    ensures Enumerates(keys, repoCrds.Keys)
    ensures forall k :: k in keys ==> k in repoCrds
    ensures ok == !fault
    ensures db.tags == old(db.tags) && db.nextId == old(db.nextId)
    ensures db.crds == if fault then old(db.crds) else InsertIgnoring(old(db.crds), EntriesOf(keys, repoCrds, tagId))
  {
    var args;
    args, keys := CollectArgs(repoCrds, tagId);
    var query := BuildInsert(CrdInsertPrefix, CrdArgCount, |repoCrds|);
    var stmt := query + "ON CONFLICT DO NOTHING";
    ghost var rows := EntriesOf(keys, repoCrds, tagId);
    EntriesOfSize(keys, repoCrds, tagId);
    EnumeratesSize(keys, repoCrds.Keys);
    BatchStatementBinds(rows);
    var bound := BindRows(args);
    ok := db.InsertCrds(bound.value, fault);
  }
}
