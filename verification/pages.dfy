/** What the two page generators (cmd/doc and docs-generator/doc) share
    line for line: the choice of the schema to document for a CRD, the walk
    over the CRD rows of an org page, the walk over the repository's tag
    names with its sanity check, and the page titles. Query results are
    given as values (None: the query returned an error); the page templates
    are not modelled, only the data handed to them. */
module Pages {
  import opened Strings
  import opened CrdIndex

  // ---------------------------------------------------------------------
  // The CRD as the doc page sees it
  // ---------------------------------------------------------------------

  /** An OpenAPI v3 schema; only its description is looked at here. */
  datatype JsonSchema = JsonSchema(description: string)

  /** apiextensions.CustomResourceValidation. */
  datatype Validation = Validation(openApi: Option<JsonSchema>)

  /** One entry of spec.versions. */
  datatype CrdVersion = CrdVersion(name: string, storage: bool, schema: Option<Validation>)

  /** The parts of a CRD's spec the schema choice reads. */
  datatype CrdSpec = CrdSpec(validation: Option<Validation>, versions: seq<CrdVersion>)

  /** The position of the first version flagged as the storage version, or -1. */
  function StorageIndex(vs: seq<CrdVersion>): (i: int)
    ensures -1 <= i < |vs|
    ensures i >= 0 ==> vs[i].storage
    ensures forall j :: 0 <= j < |vs| && (i < 0 || j < i) ==> !vs[j].storage
  {
    if vs == [] then -1
    else if vs[0].storage then 0
    else
      var i := StorageIndex(vs[1..]);
      if i < 0 then -1 else i + 1
  }

  /** The schema to document: the top-level validation, unless more than one
      version is declared and the first storage version carries a schema. */
  function ChosenSchema(spec: CrdSpec): Option<Validation>
  {
    var i := StorageIndex(spec.versions);
    if |spec.versions| > 1 && i >= 0 && spec.versions[i].schema.Some? then spec.versions[i].schema
    else spec.validation
  }

  /** The cases of the choice: the top-level validation is kept for a single
      version, when no version is the storage version and when the storage
      version has no schema; otherwise the schema is that of the first
      storage version, and only earlier non-storage versions are passed over. */
  lemma ChosenSchemaCases(spec: CrdSpec)
    ensures |spec.versions| <= 1 ==> ChosenSchema(spec) == spec.validation
    ensures (forall i :: 0 <= i < |spec.versions| ==> !spec.versions[i].storage) ==>
              ChosenSchema(spec) == spec.validation
    ensures forall i :: 0 <= i < |spec.versions| && spec.versions[i].storage && spec.versions[i].schema.None? &&
                        (forall j :: 0 <= j < i ==> !spec.versions[j].storage) ==>
              ChosenSchema(spec) == spec.validation
    ensures forall i :: 0 <= i < |spec.versions| && |spec.versions| > 1 &&
                        spec.versions[i].storage && spec.versions[i].schema.Some? &&
                        (forall j :: 0 <= j < i ==> !spec.versions[j].storage) ==>
              ChosenSchema(spec) == spec.versions[i].schema
  {
    var i := StorageIndex(spec.versions);
    forall k | 0 <= k < |spec.versions| && spec.versions[k].storage &&
               (forall j :: 0 <= j < k ==> !spec.versions[j].storage)
      ensures i == k
    {
    }
  }

  /** The scan over the versions, done only when more than one is declared;
      the first storage version ends it. */
  method SelectSchema(spec: CrdSpec) returns (schema: Option<Validation>)
    ensures schema == ChosenSchema(spec)
  {
    schema := spec.validation;
    if |spec.versions| > 1 {
      var i := 0;
      while i < |spec.versions|
        invariant 0 <= i <= |spec.versions|
        invariant forall j :: 0 <= j < i ==> !spec.versions[j].storage
        invariant schema == spec.validation
      {
        var version := spec.versions[i];
        if version.storage {
          if version.schema.Some? {
            schema := version.schema;
          }
          break;
        }
        i := i + 1;
      }
    }
  }

  /** Whether a page can be rendered from the chosen schema. */
  predicate Renderable(schema: Option<Validation>)
  {
    schema.Some? && schema.value.openApi.Some?
  }

  // ---------------------------------------------------------------------
  // The doc page of one CRD
  // ---------------------------------------------------------------------

  /** The row the doc page query scans: the tag name, the stored CRD after
      JSON decoding (None: json.Unmarshal failed) and what GetStoredGVK makes
      of it (None: nil). */
  datatype DocRow = DocRow(tag: string, crd: Option<CrdSpec>, storedGvk: Option<Gvk>)

  datatype DocResult =
    | DocPanicked  // the query found no row, or Scan failed
    | NoDoc        // returned without rendering
    | DocPage(title: string, repo: string, tag: string, gvk: Gvk, schema: JsonSchema)

  /** `kind.group/version`. */
  function DocTitle(kind: string, group: string, version: string): string
  {
    kind + "." + group + "/" + version
  }

  /** What the doc page is made from, given the scanned row. */
  function DocOutcome(org: string, repo: string, group: string, kind: string, version: string,
                      row: Option<DocRow>): DocResult
  {
    if row.None? then DocPanicked
    else if row.value.crd.None? then NoDoc
    else
      var schema := ChosenSchema(row.value.crd.value);
      if !Renderable(schema) || row.value.storedGvk.None? then NoDoc
      else DocPage(DocTitle(kind, group, version), Join([org, repo], "/"), row.value.tag,
                   row.value.storedGvk.value, schema.value.openApi.value)
  }

  /** A page is rendered exactly when the row exists, its CRD decodes, the
      chosen schema has an OpenAPI v3 part and the CRD names a stored GVK; it
      then shows the tag the query found (not the requested one), the stored
      GVK and the chosen schema. A missing row panics. */
  lemma DocOutcomeCases(org: string, repo: string, group: string, kind: string, version: string,
                        row: Option<DocRow>)
    ensures DocOutcome(org, repo, group, kind, version, row) == DocPanicked <==> row.None?
    ensures DocOutcome(org, repo, group, kind, version, row).DocPage? <==>
              row.Some? && row.value.crd.Some? && Renderable(ChosenSchema(row.value.crd.value)) &&
              row.value.storedGvk.Some?
    ensures var r := DocOutcome(org, repo, group, kind, version, row);
            r.DocPage? ==>
              r.title == kind + "." + group + "/" + version &&
              r.repo == org + "/" + repo &&
              r.tag == row.value.tag && r.gvk == row.value.storedGvk.value &&
              Some(Validation(Some(r.schema))) == ChosenSchema(row.value.crd.value)
  {
    assert Join([org, repo], "/") == org + "/" + Join([org, repo][1..], "/");
    assert [org, repo][1..] == [repo];
  }

  /** The steps of doc once the row is scanned. */
  method DocData(org: string, repo: string, group: string, kind: string, version: string, row: Option<DocRow>)
      returns (r: DocResult)
    ensures r == DocOutcome(org, repo, group, kind, version, row)
  {
    var title := kind + "." + group + "/" + version;
    if row.None? {
      return DocPanicked;
    }
    var foundTag := row.value.tag;
    if row.value.crd.None? {
      return NoDoc;
    }
    var schema := SelectSchema(row.value.crd.value);
    if schema.None? || schema.value.openApi.None? {
      return NoDoc;
    }
    var gvk := row.value.storedGvk;
    if gvk.None? {
      return NoDoc;
    }
    r := DocPage(title, Join([org, repo], "/"), foundTag, gvk.value, schema.value.openApi.value);
  }

  // ---------------------------------------------------------------------
  // The org page of one repository (at one tag, or the latest)
  // ---------------------------------------------------------------------

  /** `org/repo`, followed by `@tag` when a tag is requested. */
  function PageTitle(org: string, repo: string, tag: string): string
  {
    if tag == "" then org + "/" + repo else org + "/" + repo + "@" + tag
  }

  /** The title reads back as the repository and, when one was requested,
      the tag: `@` separates them and appears only for a tag (none of the
      names contains `@`). */
  lemma PageTitleParts(org: string, repo: string, tag: string)
    requires '@' !in org && '@' !in repo && '@' !in tag
    ensures Split(PageTitle(org, repo, tag), '@') ==
              if tag == "" then [org + "/" + repo] else [org + "/" + repo, tag]
  {
    assert '@' !in org + "/" + repo;
    if tag == "" {
      SplitNoSep(org + "/" + repo, '@');
    } else {
      SplitAppendSegment(org + "/" + repo, tag, '@');
      SplitNoSep(org + "/" + repo, '@');
    }
  }

  /** A row of the org page's CRD query: tag name, group, version, kind. */
  datatype CrdListRow = CrdListRow(tag: string, group: string, version: string, kind: string)

  function GvkOf(row: CrdListRow): Gvk
  {
    Gvk(row.group, row.version, row.kind)
  }

  /** The CRD map after the rows: keyed `group/version/kind`, a later row
      replacing an earlier one with the same key. */
  function CrdMapOf(rows: seq<CrdListRow>): map<string, Gvk>
  {
    if rows == [] then map[]
    else
      var last := rows[|rows| - 1];
      CrdMapOf(rows[..|rows| - 1])[PrettyGvk(GvkOf(last)) := GvkOf(last)]
  }

  /** The doc page org builds for one of its rows: `docQuery` gives what
      doc's query finds for a GVK under the org page's tag. */
  function DocOf(org: string, repo: string, row: CrdListRow, docQuery: Gvk -> Option<DocRow>): DocResult
  {
    DocOutcome(org, repo, row.group, row.kind, row.version, docQuery(GvkOf(row)))
  }

  /** The doc pages built while walking the rows, one per row in order. */
  function DocsOf(org: string, repo: string, rows: seq<CrdListRow>, docQuery: Gvk -> Option<DocRow>): seq<DocResult>
  {
    if rows == [] then []
    else DocsOf(org, repo, rows[..|rows| - 1], docQuery) + [DocOf(org, repo, rows[|rows| - 1], docQuery)]
  }

  /** The position of the first row whose doc page panics, or |rows| when none does. */
  function FirstDocPanic(org: string, repo: string, rows: seq<CrdListRow>, docQuery: Gvk -> Option<DocRow>): (k: nat)
    ensures k <= |rows|
    ensures forall i :: 0 <= i < k ==> DocOf(org, repo, rows[i], docQuery) != DocPanicked
    ensures k < |rows| ==> DocOf(org, repo, rows[k], docQuery) == DocPanicked
  {
    if rows == [] then 0
    else if DocOf(org, repo, rows[0], docQuery) == DocPanicked then 0
    else 1 + FirstDocPanic(org, repo, rows[1..], docQuery)
  }

  /** The tag of the last row, or the requested tag when there are none. */
  function LastTag(rows: seq<CrdListRow>, tag: string): string
  {
    if rows == [] then tag else rows[|rows| - 1].tag
  }

  /** The keys the rows produce, in the order of the walk. */
  function KeySet(rows: seq<CrdListRow>): set<string>
  {
    if rows == [] then {} else KeySet(rows[..|rows| - 1]) + {PrettyGvk(GvkOf(rows[|rows| - 1]))}
  }

  /** The distinct GVKs among the rows. */
  function GvkSet(rows: seq<CrdListRow>): set<Gvk>
  {
    if rows == [] then {} else GvkSet(rows[..|rows| - 1]) + {GvkOf(rows[|rows| - 1])}
  }

  lemma {:induction false} GvkSetMembers(rows: seq<CrdListRow>)
    ensures forall g :: g in GvkSet(rows) <==> exists i :: 0 <= i < |rows| && GvkOf(rows[i]) == g
  {
    if rows != [] {
      var init := rows[..|rows| - 1];
      GvkSetMembers(init);
      forall g | g in GvkSet(init) ensures exists i :: 0 <= i < |rows| && GvkOf(rows[i]) == g {
        var i :| 0 <= i < |init| && GvkOf(init[i]) == g;
        assert rows[i] == init[i];
      }
      forall g | (exists i :: 0 <= i < |rows| && GvkOf(rows[i]) == g) ensures g in GvkSet(rows) {
        var i :| 0 <= i < |rows| && GvkOf(rows[i]) == g;
        if i < |init| {
          assert init[i] == rows[i];
        }
      }
    }
  }

  /** The CRD map has a key for each row and no other, and every entry is
      filed under its own GVK's key. */
  lemma {:induction false} CrdMapOfSpec(rows: seq<CrdListRow>)
    ensures CrdMapOf(rows).Keys == KeySet(rows)
    ensures forall k :: k in CrdMapOf(rows) ==> PrettyGvk(CrdMapOf(rows)[k]) == k
    ensures forall i :: 0 <= i < |rows| ==> PrettyGvk(GvkOf(rows[i])) in CrdMapOf(rows)
  {
    if rows != [] {
      var init := rows[..|rows| - 1];
      CrdMapOfSpec(init);
      forall i | 0 <= i < |rows| ensures PrettyGvk(GvkOf(rows[i])) in CrdMapOf(rows) {
        if i < |init| {
          assert init[i] == rows[i];
        }
      }
    }
  }

  predicate SlashFree(g: Gvk)
  {
    '/' !in g.group && '/' !in g.version && '/' !in g.kind
  }

  /** Without slashes in the names, the key reads back as the GVK's parts. */
  lemma PrettyGvkParts(g: Gvk)
    requires SlashFree(g)
    ensures Split(PrettyGvk(g), '/') == [g.group, g.version, g.kind]
  {
    SplitAppendSegment(g.group + "/" + g.version, g.kind, '/');
    SplitAppendSegment(g.group, g.version, '/');
    SplitNoSep(g.group, '/');
  }

  /** So distinct GVKs have distinct keys. */
  lemma PrettyGvkInjective(a: Gvk, b: Gvk)
    requires SlashFree(a) && SlashFree(b)
    requires PrettyGvk(a) == PrettyGvk(b)
    ensures a == b
  {
    PrettyGvkParts(a);
    PrettyGvkParts(b);
  }

  /** The page's Total (the size of the CRD map) is the number of distinct
      GVKs among the rows, as long as no name contains a slash. */
  lemma TotalCountsDistinctGvks(rows: seq<CrdListRow>)
    requires forall i :: 0 <= i < |rows| ==> SlashFree(GvkOf(rows[i]))
    ensures |CrdMapOf(rows)| == |GvkSet(rows)|
  {
    CrdMapOfSpec(rows);
    DistinctCount(rows);
  }

  lemma {:induction false} DistinctCount(rows: seq<CrdListRow>)
    requires forall i :: 0 <= i < |rows| ==> SlashFree(GvkOf(rows[i]))
    ensures |KeySet(rows)| == |GvkSet(rows)|
  {
    if rows != [] {
      var init := rows[..|rows| - 1];
      var last := GvkOf(rows[|rows| - 1]);
      assert forall i :: 0 <= i < |init| ==> init[i] == rows[i];
      DistinctCount(init);
      if last in GvkSet(init) {
        KeyOfMember(init, last);
        assert GvkSet(rows) == GvkSet(init);
        assert KeySet(rows) == KeySet(init);
      } else if PrettyGvk(last) in KeySet(init) {
        var g := MemberOfKey(init, PrettyGvk(last));
        GvkSetMembers(init);
        var i :| 0 <= i < |init| && GvkOf(init[i]) == g;
        PrettyGvkInjective(g, last);
        assert false;
      }
    }
  }

  lemma {:induction false} KeyOfMember(rows: seq<CrdListRow>, g: Gvk)
    requires g in GvkSet(rows)
    ensures PrettyGvk(g) in KeySet(rows)
  {
    if GvkOf(rows[|rows| - 1]) != g {
      KeyOfMember(rows[..|rows| - 1], g);
    }
  }

  lemma {:induction false} MemberOfKey(rows: seq<CrdListRow>, k: string) returns (g: Gvk)
    requires k in KeySet(rows)
    ensures g in GvkSet(rows) && PrettyGvk(g) == k
  {
    if PrettyGvk(GvkOf(rows[|rows| - 1])) == k {
      g := GvkOf(rows[|rows| - 1]);
    } else {
      g := MemberOfKey(rows[..|rows| - 1], k);
    }
  }

  /** The walk over the CRD rows: each row becomes the latest found tag and
      an entry of the CRD map, and its doc page is built on the spot; a doc
      page that panics ends the walk (and org) at that row. */
  method CollectCrdRows(org: string, repo: string, rows: seq<CrdListRow>, tag: string, docQuery: Gvk -> Option<DocRow>)
      returns (crds: map<string, Gvk>, foundTag: string, docs: seq<DocResult>, panicked: bool)
    ensures panicked <==> FirstDocPanic(org, repo, rows, docQuery) < |rows|
    ensures panicked ==> docs == DocsOf(org, repo, rows[..FirstDocPanic(org, repo, rows, docQuery) + 1], docQuery)
    ensures !panicked ==> docs == DocsOf(org, repo, rows, docQuery)
    ensures !panicked ==> crds == CrdMapOf(rows) && foundTag == LastTag(rows, tag)
  {
    crds, foundTag, docs, panicked := map[], tag, [], false;
    ghost var k := FirstDocPanic(org, repo, rows, docQuery);
    var i := 0;
    while i < |rows|
      invariant 0 <= i <= |rows| && i <= k
      invariant crds == CrdMapOf(rows[..i])
      invariant foundTag == LastTag(rows[..i], tag)
      invariant docs == DocsOf(org, repo, rows[..i], docQuery)
    {
      var row := rows[i];
      foundTag := row.tag;
      crds := crds[row.group + "/" + row.version + "/" + row.kind := Gvk(row.group, row.version, row.kind)];
      var d := DocData(org, repo, row.group, row.kind, row.version, docQuery(Gvk(row.group, row.version, row.kind)));
      docs := docs + [d];
      assert rows[..i + 1][..i] == rows[..i];
      if d == DocPanicked {
        assert i == k;
        return crds, foundTag, docs, true;
      }
      assert i != k;
      i := i + 1;
    }
    assert rows[..|rows|] == rows;
  }

  /** The walk over the repository's tag names: all of them, in order, and
      whether the requested tag is among them. */
  method CollectTags(names: seq<string>, tag: string) returns (tags: seq<string>, tagExists: bool)
    ensures tags == names
    ensures tagExists <==> tag in names
  {
    tags, tagExists := [], false;
    var i := 0;
    while i < |names|
      invariant 0 <= i <= |names|
      invariant tags == names[..i]
      invariant tagExists <==> tag in names[..i]
    {
      var t := names[i];
      if !tagExists && t == tag {
        tagExists := true;
      }
      tags := tags + [t];
      assert names[..i + 1] == names[..i] + [t];
      i := i + 1;
    }
    assert names[..|names|] == names;
  }

  datatype OrgResult =
    | OrgPanicked
    | OrgPage(title: string, repo: string, tag: string, tags: seq<string>, crds: map<string, Gvk>, total: nat)

  /** What org produces: the page data (or a panic) and the doc pages it
      built while walking the CRD rows. `crdQuery` and `tagQuery` are the
      results of the CRD and tag queries (None: the query failed), and
      `docQuery` what doc's query finds for each GVK under the same tag.
      A doc page that panics stops org at its row; otherwise the tag check
      comes after all doc pages are built. */
  function OrgOutcome(org: string, repo: string, tag: string, crdQuery: Option<seq<CrdListRow>>,
                      docQuery: Gvk -> Option<DocRow>, tagQuery: Option<seq<string>>): (OrgResult, seq<DocResult>)
  {
    if crdQuery.None? then (OrgPanicked, [])
    else
      var rows := crdQuery.value;
      var k := FirstDocPanic(org, repo, rows, docQuery);
      if k < |rows| then (OrgPanicked, DocsOf(org, repo, rows[..k + 1], docQuery))
      else if tagQuery.None? || |tagQuery.value| == 0 || (tag != "" && tag !in tagQuery.value) then
        (OrgPanicked, DocsOf(org, repo, rows, docQuery))
      else
        var found := LastTag(rows, tag);
        var crds := CrdMapOf(rows);
        (OrgPage(PageTitle(org, repo, tag), Join([org, repo], "/"),
                 if found == "" then tagQuery.value[0] else found,
                 tagQuery.value, crds, |crds|),
         DocsOf(org, repo, rows, docQuery))
  }

  /** The doc pages of org: the rows' pages in order, up to and including
      the first that panics (none after it), or all of them when none does. */
  predicate DocsUpToPanic(org: string, repo: string, rows: seq<CrdListRow>, docQuery: Gvk -> Option<DocRow>,
                          docs: seq<DocResult>)
  {
    |docs| <= |rows| &&
    (forall i :: 0 <= i < |docs| ==> docs[i] == DocOf(org, repo, rows[i], docQuery)) &&
    (forall i :: 0 <= i < |docs| - 1 ==> docs[i] != DocPanicked) &&
    (|docs| == |rows| || (|docs| > 0 && docs[|docs| - 1] == DocPanicked))
  }

  /** The bookkeeping of an org page: it panics exactly when a query fails,
      doc's query finds nothing for one of the rows, no tag is listed, or a
      requested tag is not listed; the doc pages built are those of the
      rows up to the first that panics; the shown tag is the last row's, the
      requested one when there are no rows, and the newest listed tag when
      that is empty; the CRD map holds one entry per key and Total is its
      size, the number of distinct GVKs when no name holds a slash. */
  lemma OrgOutcomeCases(org: string, repo: string, tag: string, crdQuery: Option<seq<CrdListRow>>,
                        docQuery: Gvk -> Option<DocRow>, tagQuery: Option<seq<string>>)
    ensures var (r, docs) := OrgOutcome(org, repo, tag, crdQuery, docQuery, tagQuery);
            (r == OrgPanicked <==>
               crdQuery.None? ||
               (exists i :: 0 <= i < |crdQuery.value| && docQuery(GvkOf(crdQuery.value[i])).None?) ||
               tagQuery.None? || |tagQuery.value| == 0 || (tag != "" && tag !in tagQuery.value)) &&
            (crdQuery.None? ==> docs == []) &&
            (crdQuery.Some? ==> DocsUpToPanic(org, repo, crdQuery.value, docQuery, docs))
    ensures var (r, _) := OrgOutcome(org, repo, tag, crdQuery, docQuery, tagQuery);
            r.OrgPage? ==>
              var rows := crdQuery.value;
              r.title == PageTitle(org, repo, tag) && r.repo == org + "/" + repo &&
              r.tags == tagQuery.value &&
              (rows == [] && tag != "" ==> r.tag == tag) &&
              (rows != [] && rows[|rows| - 1].tag != "" ==> r.tag == rows[|rows| - 1].tag) &&
              (rows != [] && rows[|rows| - 1].tag == "" ==> r.tag == tagQuery.value[0]) &&
              (rows == [] && tag == "" ==> r.tag == tagQuery.value[0]) &&
              r.total == |r.crds| && r.crds.Keys == KeySet(rows) &&
              (forall k :: k in r.crds ==> PrettyGvk(r.crds[k]) == k) &&
              ((forall i :: 0 <= i < |rows| ==> SlashFree(GvkOf(rows[i]))) ==> r.total == |GvkSet(rows)|)
  {
    assert Join([org, repo], "/") == org + "/" + Join([org, repo][1..], "/");
    assert [org, repo][1..] == [repo];
    if crdQuery.Some? {
      var rows := crdQuery.value;
      FirstDocPanicIff(org, repo, rows, docQuery);
      OrgDocs(org, repo, rows, docQuery);
      CrdMapOfSpec(rows);
      if forall i :: 0 <= i < |rows| ==> SlashFree(GvkOf(rows[i])) {
        TotalCountsDistinctGvks(rows);
      }
    }
  }

  /** Some row's doc page panics exactly when doc's query finds nothing for
      one of the rows. */
  lemma FirstDocPanicIff(org: string, repo: string, rows: seq<CrdListRow>, docQuery: Gvk -> Option<DocRow>)
    ensures FirstDocPanic(org, repo, rows, docQuery) < |rows| <==>
              exists i :: 0 <= i < |rows| && docQuery(GvkOf(rows[i])).None?
  {
    forall i | 0 <= i < |rows|
      ensures DocOf(org, repo, rows[i], docQuery) == DocPanicked <==> docQuery(GvkOf(rows[i])).None?
    {
      DocOutcomeCases(org, repo, rows[i].group, rows[i].kind, rows[i].version, docQuery(GvkOf(rows[i])));
    }
  }

  /** The doc pages org builds are those of the rows up to the first that panics. */
  lemma OrgDocs(org: string, repo: string, rows: seq<CrdListRow>, docQuery: Gvk -> Option<DocRow>)
    ensures var k := FirstDocPanic(org, repo, rows, docQuery);
            DocsUpToPanic(org, repo, rows, docQuery,
                          if k < |rows| then DocsOf(org, repo, rows[..k + 1], docQuery) else DocsOf(org, repo, rows, docQuery))
  {
    var k := FirstDocPanic(org, repo, rows, docQuery);
    if k < |rows| {
      DocsOfSpec(org, repo, rows[..k + 1], docQuery);
      assert forall i :: 0 <= i < k + 1 ==> rows[..k + 1][i] == rows[i];
    } else {
      DocsOfSpec(org, repo, rows, docQuery);
    }
  }

  lemma {:induction false} DocsOfSpec(org: string, repo: string, rows: seq<CrdListRow>, docQuery: Gvk -> Option<DocRow>)
    ensures |DocsOf(org, repo, rows, docQuery)| == |rows|
    ensures forall i :: 0 <= i < |rows| ==> DocsOf(org, repo, rows, docQuery)[i] == DocOf(org, repo, rows[i], docQuery)
  {
    if rows != [] {
      DocsOfSpec(org, repo, rows[..|rows| - 1], docQuery);
    }
  }

  /** The steps of org once its directory exists: the CRD rows (building a
      doc page for each), then the tags, then the sanity check and the
      fallback for the shown tag. */
  method OrgData(org: string, repo: string, tag: string, crdQuery: Option<seq<CrdListRow>>,
                 docQuery: Gvk -> Option<DocRow>, tagQuery: Option<seq<string>>)
      returns (r: OrgResult, docs: seq<DocResult>)
    ensures (r, docs) == OrgOutcome(org, repo, tag, crdQuery, docQuery, tagQuery)
  {
    var title := org + "/" + repo;
    if tag != "" {
      title := title + "@" + tag;
    }
    docs := [];
    if crdQuery.None? {
      return OrgPanicked, docs;
    }
    var crds, foundTag, panicked;
    crds, foundTag, docs, panicked := CollectCrdRows(org, repo, crdQuery.value, tag, docQuery);
    if panicked {
      return OrgPanicked, docs;
    }
    if tagQuery.None? {
      return OrgPanicked, docs;
    }
    var tags, tagExists := CollectTags(tagQuery.value, tag);
    if |tags| == 0 || (!tagExists && tag != "") {
      return OrgPanicked, docs;
    }
    if foundTag == "" {
      foundTag := tags[0];
    }
    r := OrgPage(title, Join([org, repo], "/"), foundTag, tags, crds, |crds|);
  }
}
