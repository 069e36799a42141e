/** How the CRDs of one tag are gathered (getCRDsFromTag in both indexers):
    every document of every matched file goes through the normaliser
    (crd.NewCRDer followed by json.Marshal); what it accepts is stored in a
    map under its `group/version/kind` key, later documents overwriting
    earlier ones. The functions here fix the map the loops must produce for a
    given processing order of the files; the lemmas say what is in it. */
module CrdIndex {
  import opened Strings
  import opened YamlSplit

  datatype Gvk = Gvk(group: string, version: string, kind: string)

  /** crd.PrettyGVK: the map key `group/version/kind`. */
  function PrettyGvk(g: Gvk): string
  {
    g.group + "/" + g.version + "/" + g.kind
  }

  /** What the normaliser makes of one document. */
  datatype Normalized =
    | NotCrd                      // NewCRDer returned an error, or a nil CRD
    | MarshalFailed               // json.Marshal of the normalised CRD failed
    | Crd(gvk: Gvk, data: Bytes)  // accepted: its GVK and its JSON bytes

  datatype RepoCrd = RepoCrd(path: string, filename: string, group: string, version: string, kind: string, crd: Bytes)

  type Files = map<string, seq<Bytes>>

  /** The map key of a document, when the normaliser accepts it. */
  function DocKey(y: Bytes, normalize: Bytes -> Normalized): Option<string>
  {
    if normalize(y).Crd? then Some(PrettyGvk(normalize(y).gvk)) else None
  }

  /** The record stored for an accepted document of `file`; its filename is the basename. */
  function RecordOf(file: string, y: Bytes, normalize: Bytes -> Normalized): RepoCrd
    requires normalize(y).Crd?
  {
    var g := normalize(y).gvk;
    RepoCrd(PrettyGvk(g), Base(file), g.group, g.version, g.kind, normalize(y).data)
  }

  /** One document absorbed into the map. */
  function Absorb(acc: map<string, RepoCrd>, file: string, y: Bytes, normalize: Bytes -> Normalized): map<string, RepoCrd>
  {
    if normalize(y).Crd? then acc[PrettyGvk(normalize(y).gvk) := RecordOf(file, y, normalize)] else acc
  }

  /** The documents of one file absorbed in their order. */
  function AbsorbDocs(acc: map<string, RepoCrd>, file: string, ys: seq<Bytes>, normalize: Bytes -> Normalized): map<string, RepoCrd>
  {
    if ys == [] then acc
    else Absorb(AbsorbDocs(acc, file, ys[..|ys| - 1], normalize), file, ys[|ys| - 1], normalize)
  }

  /** The files absorbed one after another in the given order, starting from an empty map. */
  function AbsorbFiles(order: seq<string>, files: Files, normalize: Bytes -> Normalized): map<string, RepoCrd>
    requires forall f :: f in order ==> f in files
  {
    if order == [] then map[]
    else
      var f := order[|order| - 1];
      AbsorbDocs(AbsorbFiles(order[..|order| - 1], files, normalize), f, files[f], normalize)
  }

  /** The position of the last document of ys stored under key, or -1. */
  function LastWithKey(ys: seq<Bytes>, key: string, normalize: Bytes -> Normalized): (i: int)
    ensures -1 <= i < |ys|
    ensures i >= 0 ==> DocKey(ys[i], normalize) == Some(key)
    ensures forall j :: i < j < |ys| ==> DocKey(ys[j], normalize) != Some(key)
  {
    if ys == [] then -1
    else if DocKey(ys[|ys| - 1], normalize) == Some(key) then |ys| - 1
    else LastWithKey(ys[..|ys| - 1], key, normalize)
  }

  /** The position in `order` of the last file that has a document stored under key, or -1. */
  function LastFileWithKey(order: seq<string>, files: Files, key: string, normalize: Bytes -> Normalized): (p: int)
    requires forall f :: f in order ==> f in files
    ensures -1 <= p < |order|
    ensures p >= 0 ==> LastWithKey(files[order[p]], key, normalize) >= 0
    ensures forall q :: p < q < |order| ==> LastWithKey(files[order[q]], key, normalize) < 0
  {
    if order == [] then -1
    else if LastWithKey(files[order[|order| - 1]], key, normalize) >= 0 then |order| - 1
    else LastFileWithKey(order[..|order| - 1], files, key, normalize)
  }

  /** Within one file the last accepted document with a key wins; a key no
      accepted document of the file has is left as it was. */
  lemma {:induction false} AbsorbDocsAt(acc: map<string, RepoCrd>, file: string, ys: seq<Bytes>, normalize: Bytes -> Normalized, key: string)
    ensures var i := LastWithKey(ys, key, normalize);
            var r := AbsorbDocs(acc, file, ys, normalize);
            if i >= 0 then key in r && r[key] == RecordOf(file, ys[i], normalize)
            else (key in r <==> key in acc) && (key in acc ==> r[key] == acc[key])
  {
    if ys != [] {
      AbsorbDocsAt(acc, file, ys[..|ys| - 1], normalize, key);
      if DocKey(ys[|ys| - 1], normalize) != Some(key) {
        assert LastWithKey(ys, key, normalize) == LastWithKey(ys[..|ys| - 1], key, normalize);
      }
    }
  }

  /** The whole map: a key is present exactly when some accepted document of
      some file has it, and it holds the last such document of the last such
      file in processing order, named by that file's basename. */
  lemma {:induction false} AbsorbFilesAt(order: seq<string>, files: Files, normalize: Bytes -> Normalized, key: string)
    requires forall f :: f in order ==> f in files
    ensures var p := LastFileWithKey(order, files, key, normalize);
            var r := AbsorbFiles(order, files, normalize);
            if p >= 0 then
              key in r &&
              r[key] == RecordOf(order[p], files[order[p]][LastWithKey(files[order[p]], key, normalize)], normalize)
            else key !in r
  {
    if order != [] {
      var init := order[..|order| - 1];
      var f := order[|order| - 1];
      AbsorbFilesAt(init, files, normalize, key);
      AbsorbDocsAt(AbsorbFiles(init, files, normalize), f, files[f], normalize, key);
    }
  }

  /** A document that the normaliser rejects adds nothing. */
  lemma RejectAddsNothing(acc: map<string, RepoCrd>, file: string, ys: seq<Bytes>, y: Bytes, normalize: Bytes -> Normalized)
    requires !normalize(y).Crd?
    ensures AbsorbDocs(acc, file, ys + [y], normalize) == AbsorbDocs(acc, file, ys, normalize)
  {
    assert (ys + [y])[..|ys|] == ys;
  }

  /** Every stored record sits under its own GVK key. */
  lemma {:induction false} AbsorbFilesPaths(order: seq<string>, files: Files, normalize: Bytes -> Normalized, key: string)
    requires forall f :: f in order ==> f in files
    requires key in AbsorbFiles(order, files, normalize)
    ensures AbsorbFiles(order, files, normalize)[key].path == key
  {
    AbsorbFilesAt(order, files, normalize, key);
  }

  /** Some accepted document of some file has the key. */
  ghost predicate Declared(files: Files, normalize: Bytes -> Normalized, key: string)
  {
    exists f :: f in files && LastWithKey(files[f], key, normalize) >= 0
  }

  /** Whatever the order, once every file is processed the map holds exactly
      the declared keys, each record under its own key. */
  lemma AbsorbFilesKeys(order: seq<string>, files: Files, normalize: Bytes -> Normalized)
    requires forall f :: f in order ==> f in files
    requires forall f :: f in files ==> f in order
    ensures forall key :: key in AbsorbFiles(order, files, normalize) <==> Declared(files, normalize, key)
    ensures forall key :: key in AbsorbFiles(order, files, normalize) ==> AbsorbFiles(order, files, normalize)[key].path == key
  {
    var r := AbsorbFiles(order, files, normalize);
    forall key ensures key in r <==> Declared(files, normalize, key) {
      AbsorbFilesAt(order, files, normalize, key);
      var p := LastFileWithKey(order, files, key, normalize);
      if p < 0 {
        forall f | f in files ensures LastWithKey(files[f], key, normalize) < 0 {
          var q :| 0 <= q < |order| && order[q] == f;
        }
      }
    }
    forall key | key in r ensures r[key].path == key {
      AbsorbFilesPaths(order, files, normalize, key);
    }
  }

  /** No GVK key is declared in two different files. */
  ghost predicate KeysDisjoint(files: Files, normalize: Bytes -> Normalized)
  {
    forall f1, f2, key ::
      (f1 in files && f2 in files && LastWithKey(files[f1], key, normalize) >= 0 &&
       LastWithKey(files[f2], key, normalize) >= 0) ==> f1 == f2
  }

  /** When no key is declared by two different files, the processing order of
      the files does not matter: the cross-file order (Go's map iteration
      order) only decides between files that declare the same GVK. */
  lemma AbsorbFilesOrderFree(order1: seq<string>, order2: seq<string>, files: Files, normalize: Bytes -> Normalized)
    requires forall f :: f in order1 ==> f in files
    requires forall f :: f in order2 ==> f in files
    requires forall f :: f in order1 <==> f in order2
    requires KeysDisjoint(files, normalize)
    ensures AbsorbFiles(order1, files, normalize) == AbsorbFiles(order2, files, normalize)
  {
    var r1 := AbsorbFiles(order1, files, normalize);
    var r2 := AbsorbFiles(order2, files, normalize);
    forall key ensures (key in r1 <==> key in r2) && (key in r1 ==> r1[key] == r2[key]) {
      AbsorbFilesAt(order1, files, normalize, key);
      AbsorbFilesAt(order2, files, normalize, key);
      var p1 := LastFileWithKey(order1, files, key, normalize);
      var p2 := LastFileWithKey(order2, files, key, normalize);
      if p1 >= 0 {
        var f := order1[p1];
        assert f in order2;
        var q :| 0 <= q < |order2| && order2[q] == f;
        assert p2 >= q;
      }
      if p2 >= 0 {
        var f := order2[p2];
        assert f in order1;
        var q :| 0 <= q < |order1| && order1[q] == f;
        assert p1 >= q;
      }
    }
    assert r1.Keys == r2.Keys;
  }
}
