# crddocs-generator in Dafny

A model of the core of crddocs-generator, in Dafny. The repository has two halves.

The **indexers** (`cmd/gitter`, `docs-generator/gitter`) do the following:
- clone GitHub repositories at configured tags;
- grep the checked-out tree for YAML files that declare a `CustomResourceDefinition`;
- split those files into documents and normalise each CRD;
- key the CRDs by `group/version/kind`;
- store them in two tables: `tags` (name, repo, time) and `crds` (group, version, kind, tag id, filename, data).

The **page generators** (`cmd/doc`, `docs-generator/doc`) read those tables back and build a static site:
- a landing page per platform version (docs-generator only);
- an org page per repository, for the latest tag and for each configured tag;
- a doc page per CRD, showing the schema of its storage version.

The model follows the Go code file by file. Procedures that two files share word for word are written once:
- module `Indexer` holds `buildInsert`, `splitYAML`, `getYAMLs`, the CRD collection loop and the batch insert;
- module `Pages` holds schema selection and the org/doc page bookkeeping.

Their rows below cite the `cmd/gitter` and `docs-generator/doc` copies.

| module | models |
|---|---|
| `Strings` | `fmt.Sprint` of a natural number, ASCII `strings.ToLower`, `strings.Split`/`strings.Join`, `path.Base`, and the unanchored regex `.*lit` |
| `InsertQuery` | the VALUES list of the batch insert, with a parser that reads it back |
| `YamlSplit` | what `splitYAML` keeps from a stream of decoder outcomes |
| `CrdIndex` | the GVK-keyed map the CRD collection must produce for a given order of files |
| `Catalog` | the two tables as a class with a map per table; the driver's failures are flags |
| `Indexer` | the procedures both indexers share, as imperative methods proved against the functions above |
| `CmdGitter` | `cmd/gitter/main.go`: tag selection, resolve-or-create of the tag row, `Index`, config flattening |
| `DocsGitter` | `docs-generator/gitter/gitter.go`: nightly rules, the helm path filter, `Index` with its unconditional tag insert, config flattening |
| `Pages` | what both page generators share: storage-version schema selection, and the CRD and tag walks of an org page with its panic rule and shown-tag fallback |
| `DocsDoc` | `docs-generator/doc/doc.go`: directories (pages grouped by platform version), the landing page and `RepoShort` |
| `CmdDoc` | `cmd/doc/main.go`: directories (pages grouped by owner and repository) |

External behaviour is passed in as values:
- **git:** the tag references, commit times and checked-out trees.
- **The decoder and normaliser:** the outcomes of the YAML decoder, and what `crd.NewCRDer` plus `json.Marshal` make of a document.
- **The database:** what queries return, and fault flags for driver errors.
- **Go's map iteration order:** chosen arbitrarily, with the order exposed as a ghost result. Every contract holds for every order.

A few points where the code is followed as written:
- `splitYAML` always returns a nil error, because the deferred handler assigns a shadowed variable. After a panic it returns an empty list.
- The org page falls back to the newest listed tag whenever the shown tag is still empty. This happens when there are no rows and no requested tag, and also when the last row's tag name is itself empty.
- On the docs-generator site, doc pages live under `outDir/tag/group/kind/version`. Two repositories that have the same GVK at the same tag therefore write the same directory. `cmd/doc` puts owner and repository in the path, and `CmdDoc.DocDirsDistinct` proves its pages never collide.

## Model

| member | source | states |
|---|---|---|
| Strings.DecValue | cmd/gitter/main.go:351 | the decimal text of a parameter number reads back as that number |
| Strings.ToLowerIdempotent | cmd/gitter/main.go:161 | lower-casing twice changes nothing more |
| Strings.JoinSplit | docs-generator/doc/doc.go:214 | joining the pieces of a split on the same separator gives the string back |
| Strings.SplitJoin | docs-generator/doc/doc.go:214 | splitting a join of separator-free pieces gives the pieces back |
| Strings.BaseIsLastSegment | cmd/gitter/main.go:283 | the filename stored for a CRD is the last `/`-segment of its path |
| Strings.MatchAnyThenIff | cmd/gitter/main.go:264 | the regex `.*lit` accepts a string iff `lit` occurs in it before the first newline |
| InsertQuery.ParseValuesOf | cmd/gitter/main.go:346-363 | the rendered VALUES list parses back to exactly its groups, with no stray comma |
| InsertQuery.NumberingFlat | cmd/gitter/main.go:346-363 | n groups of k placeholders, numbered 1..k·n left to right, each number once |
| InsertQuery.InsertStatementShape | cmd/gitter/main.go:346-363 | the statement is the prefix followed by a list that parses to the numbering; for n = 0 it is the prefix alone |
| YamlSplit.KeptAppend | cmd/gitter/main.go:325-342 | the documents kept from two stretches of a stream are those of each, in order |
| YamlSplit.SkipFailure | cmd/gitter/main.go:331-340 | a document that fails to decode or to re-encode is dropped, and the walk goes on |
| YamlSplit.KeptMembers | cmd/gitter/main.go:336-341 | a document is kept iff some stream position decoded and re-encoded to it |
| YamlSplit.KeptOrder | cmd/gitter/main.go:325-342 | kept documents appear in stream order |
| CrdIndex.AbsorbDocsAt | cmd/gitter/main.go:272-289 | within a file, a key maps to the record of the last document with that key; keys no document has are untouched |
| CrdIndex.AbsorbFilesAt | cmd/gitter/main.go:269-291 | over the files, a key holds the record from the last file (in walk order) that has it |
| CrdIndex.RejectAddsNothing | cmd/gitter/main.go:273-280 | a document the normaliser rejects or that fails to marshal adds nothing |
| CrdIndex.AbsorbFilesPaths | cmd/gitter/main.go:281-288 | every record's path is its own map key |
| CrdIndex.AbsorbFilesKeys | cmd/gitter/main.go:269-291 | once every file is processed, in any order, the map holds exactly the keys some accepted document declares, each record filed under its own key |
| CrdIndex.AbsorbFilesOrderFree | cmd/gitter/main.go:271 | when no two files share a key, the map order of the files does not matter |
| Catalog.BindArgsOf | cmd/gitter/main.go:235-239 | the argument list has 6 values per row and binds back to exactly those rows |
| Catalog.InsertIgnoringGrows | cmd/gitter/main.go:239 | `ON CONFLICT DO NOTHING` keeps all old rows unchanged; the keys after are the old ones plus the batch's |
| Catalog.InsertIgnoringPresent | cmd/gitter/main.go:239 | a batch whose keys are all present changes nothing |
| Catalog.InsertIgnoringIdempotent | cmd/gitter/main.go:239 | inserting the same batch twice is the same as once |
| Catalog.IdsGrow | cmd/gitter/main.go:224 | adding tag rows never loses an id, of the repository or overall |
| Catalog.InsertTagIds | cmd/gitter/main.go:224 | inserting a new (name, repo) row adds exactly its id to all ids, and to that repository's ids only |
| Catalog.Catalog.LookupTag | cmd/gitter/main.go:217-223 | the lookup finds the id of the (name, repo) row, reports no rows, or fails |
| Catalog.Catalog.InsertTag | cmd/gitter/main.go:224-227 | a new row gets the next id, and ids stay distinct; a driver failure or an existing key changes nothing |
| Catalog.Catalog.InsertCrds | cmd/gitter/main.go:239-241 | the crds table becomes the conflict-ignoring insert of the batch, or is unchanged on a driver error |
| Indexer.AppendUnits | cmd/gitter/main.go:114-122 | one unit per listed tag of the repository is appended, and nothing else |
| Indexer.AppendOrg | cmd/gitter/main.go:113-123 | one unit per (repo, tag) of the owner is appended, counting repeated tags |
| Indexer.FullRepoSegments | cmd/gitter/main.go:161 | the repository identity splits into host, lower-cased owner and lower-cased name |
| Indexer.FullRepoCaseInsensitive | cmd/gitter/main.go:161 | the identity does not depend on the case of owner or name |
| Indexer.GrepHits | cmd/gitter/main.go:265-268 | a path is a hit iff it is in the tree, passes the path filter and has the CRD line |
| Indexer.TreeFilesAt | cmd/gitter/main.go:265-270 | a file is collected iff it is a hit and could be read; its documents are what splitYAML keeps |
| Indexer.CrdsOfTree | cmd/gitter/main.go:265-291 | the CRDs found in a tree are the GVK-keyed map of the collected files, for the walk order chosen; in any order, a key is present exactly when some matched file declares it, each record under its own key |
| Indexer.BuildInsert | cmd/gitter/main.go:346-363 | the result is the query followed by the numbering of numInsert groups of argsPerInsert placeholders (none for negative counts) |
| Indexer.AppendPlaceholders | cmd/gitter/main.go:350-356 | the inner loop writes argsPerInsert consecutive placeholders from absArg and advances absArg by that many |
| Indexer.SplitYaml | cmd/gitter/main.go:314-344 | the documents returned are the kept ones, or none after a panic, and the error is always nil |
| Indexer.YamlsOfAt | cmd/gitter/main.go:294-312 | a file is in the map iff it was hit and read, and maps to its split documents |
| Indexer.GetYamls | cmd/gitter/main.go:294-312 | the loop builds exactly that map (the docs-generator copy is gitter.go:221-239) |
| Indexer.CollectCrds | cmd/gitter/main.go:269-291 | the nested loop over files and documents builds the GVK-keyed map for the walk order it used; its keys are exactly the declared ones, each record under its own key |
| Indexer.EntriesOfTag | cmd/gitter/main.go:237 | every row of a batch carries the batch's tag id and the record of its key |
| Indexer.CollectArgs | cmd/gitter/main.go:235-238 | the arguments are the six columns of each found CRD, 6·n in all |
| Indexer.BatchStatementBinds | cmd/gitter/main.go:239 | the statement's placeholders are $1..$6n in 6-groups, and the arguments bind back to the rows |
| Indexer.InsertBatch | cmd/gitter/main.go:234-242 | the crds table gets every found CRD under the tag id unless already present; a driver error leaves it unchanged |
| CmdGitter.CloneOptionsRule | cmd/gitter/main.go:161-171 | depth 1 from the lower-cased URL; single-branch at the tag reference iff a tag is configured |
| CmdGitter.YamlPathIff | cmd/gitter/main.go:264 | a path passes iff `.yaml` occurs in it before any newline; the end is unanchored |
| CmdGitter.FirstNamed | cmd/gitter/main.go:194-199 | the first reference with the requested name, or none |
| CmdGitter.SelectedSpec | cmd/gitter/main.go:185-204 | no requested tag selects every reference; a requested tag selects its first match, or nothing |
| CmdGitter.SelectTags | cmd/gitter/main.go:185-204 | the walk, closed after the first match, selects exactly that |
| CmdGitter.ResolveTagRow | cmd/gitter/main.go:216-228 | an existing row's id is reused; a missing row is inserted; a lookup or insert failure gives no id and changes nothing |
| CmdGitter.GetCrdsFromTag | cmd/gitter/main.go:250-292 | a failed checkout gives an error; otherwise the CRDs of the tree under `.*\.yaml`: exactly the keys its matched files declare |
| CmdGitter.Gitter.StoreTagCrds | cmd/gitter/main.go:229-242 | a checkout failure skips the tag; no CRDs found leaves the crds table alone; otherwise it becomes the conflict-ignoring insert of exactly the found CRDs, in the walk order used, under the tag's id, or stays unchanged and the tag fails on a driver error; the tags table is untouched |
| CmdGitter.Gitter.IndexTag | cmd/gitter/main.go:205-242 | one tag: an unresolvable commit is skipped with no change; a lookup failure, or an insert failure for a new row, fails with no change; otherwise the existing row's id is reused or a row with the next id and the commit time is added, and the crds table changes exactly as for that id |
| CmdGitter.Gitter.IndexTags | cmd/gitter/main.go:205-245 | the tags are processed in order, each changing the tables as for one tag; the walk stops right after the first failed tag, returns an error iff one failed, and otherwise covers every tag |
| CmdGitter.Gitter.Index | cmd/gitter/main.go:153-248 | no clone, no change; otherwise the selected tags are processed as above; tables only grow, new tag rows are this repository's selected tags, every new CRD row references a tag row of this repository, every CRD row keeps its tag row; on success every selected tag with a commit has its row |
| CmdGitter.StepFacts | cmd/gitter/main.go:205-242 | one tag's step only adds rows: a new tag row is that tag's, a new CRD row references one of this repository's tag rows, and a step that did not fail leaves the tag's row present when it has a commit |
| CmdGitter.RunsKept | cmd/gitter/main.go:205-245 | over any prefix of the walk, the per-tag facts add up: tables grow, new rows belong to the listed tags of this repository, and every non-failed tag with a commit has its row |
| CmdGitter.RunsDone | cmd/gitter/main.go:205-247 | at the end of the walk the per-tag facts hold for the whole run, and on success every tag with a resolvable commit has its row |
| CmdGitter.RunGrows | cmd/gitter/main.go:205-245 | the tables at a later point of the walk contain those at any earlier point |
| CmdGitter.StoredCrdsStay | cmd/gitter/main.go:229-242 | a CRD found for a tag that was indexed is, at the end of the walk, in the crds table under that tag's final row id |
| CmdGitter.FlattenConfig | cmd/gitter/main.go:109-124 | one unit per (org, repo, tag) listed, with multiplicity; a unit is produced iff it is listed |
| CmdGitter.NewRowsCarryTag | cmd/gitter/main.go:237-239 | every row a batch adds carries the batch's tag id |
| DocsGitter.CloneOptionsRule | docs-generator/gitter/gitter.go:124-135 | always depth 1 and single-branch; `nightly` clones branch main, any other tag its tag reference |
| DocsGitter.StoredTimeRule | docs-generator/gitter/gitter.go:151-154 | nightly is stored exactly 50 years before its commit, so it sorts before recent releases; other tags keep the commit time |
| DocsGitter.HelmPathIff | docs-generator/gitter/gitter.go:188 | a path passes iff it starts with `deploy/helm/` and `.yaml` follows before any newline |
| DocsGitter.HelmPathExamples | docs-generator/gitter/gitter.go:188 | `deploy/helm/op/crds/a.yaml.bak` passes; `deploy/a.yaml` does not |
| DocsGitter.GetCrdsFromTag | docs-generator/gitter/gitter.go:186-219 | the CRDs of the tree under the helm filter, exactly the keys its matched files declare; never an error |
| DocsGitter.Gitter.Index | docs-generator/gitter/gitter.go:116-184 | the tag row is inserted without lookup before any CRD work; if it fails nothing else happens; CRDs are inserted under the new id only when some were found |
| DocsGitter.FlattenConfig | docs-generator/gitter/gitter.go:80-93 | one unit per (repo, tag) listed, all under owner stackabletech; a unit is produced iff listed |
| Pages.StorageIndex | docs-generator/doc/doc.go:412-419 | the position of the first storage-flagged version; none before it is flagged |
| Pages.ChosenSchemaCases | docs-generator/doc/doc.go:410-421 | top-level validation for at most one version, for no storage version, or for a storage version without schema; otherwise the first storage version's schema |
| Pages.SelectSchema | docs-generator/doc/doc.go:410-421 | the loop with break selects exactly that schema (cmd/doc/main.go:306-317 is the same) |
| Pages.DocOutcomeCases | docs-generator/doc/doc.go:398-447 | a missing row panics; a page is rendered iff the CRD decodes, the chosen schema has an OpenAPI part and a stored GVK exists; it shows the tag the query found |
| Pages.DocData | docs-generator/doc/doc.go:390-447 | the steps of doc produce exactly that outcome |
| Pages.PageTitleParts | docs-generator/doc/doc.go:291-297 | the title is `org/repo`, with `@tag` iff a tag is requested, and splits back at `@` |
| Pages.CrdMapOfSpec | docs-generator/doc/doc.go:304-316 | the CRD map has one key per row key and no other; each entry is filed under its own GVK's key |
| Pages.PrettyGvkParts | docs-generator/doc/doc.go:312 | a slash-free GVK's key splits back into group, version, kind |
| Pages.PrettyGvkInjective | docs-generator/doc/doc.go:312 | distinct slash-free GVKs get distinct keys |
| Pages.TotalCountsDistinctGvks | docs-generator/doc/doc.go:304-355 | Total is the number of distinct GVKs among the rows |
| Pages.FirstDocPanic | docs-generator/doc/doc.go:305-320 | the position of the first row whose doc page panics, or the row count; no row before it panics |
| Pages.CollectCrdRows | docs-generator/doc/doc.go:305-320 | the row loop builds one doc page per row and stops at the first that panics (docs up to and including it); otherwise it builds that map and leaves the last row's tag (or the requested one) as found tag |
| Pages.FirstDocPanicIff | docs-generator/doc/doc.go:319 | a doc page of the org's rows panics iff the doc query finds no row for one of their GVKs (doc.go:400-403) |
| Pages.OrgDocs | docs-generator/doc/doc.go:305-320 | the doc pages org requests are the rows' doc outcomes in order, ending at the first panic if there is one |
| Pages.CollectTags | docs-generator/doc/doc.go:330-341 | all tag names in order, and tagExists iff the requested tag is among them |
| Pages.OrgOutcomeCases | docs-generator/doc/doc.go:304-358 | panics iff the CRD query fails, a row's doc page panics (its doc query finds nothing), no tag exists, or a requested tag is absent; the doc pages built are the rows' outcomes up to the first panic; the shown tag is the last row's, the requested one, or the newest listed one (also when the last row's tag is empty); Total counts distinct GVKs |
| Pages.OrgData | docs-generator/doc/doc.go:291-358 | the steps of org, including the doc page of each row, produce exactly that outcome (cmd/doc/main.go:199-263 is the same) |
| DocsDoc.HomeDirSegments | docs-generator/doc/doc.go:228-231 | the landing page goes to outDir, or outDir/version when a version is given |
| DocsDoc.OrgDirSegments | docs-generator/doc/doc.go:273-276 | org pages go to outDir/repo, or outDir/repo/tag when a tag is given |
| DocsDoc.DocDirSegments | docs-generator/doc/doc.go:375 | doc pages go to outDir/tag/group/kind/version, without owner or repository |
| DocsDoc.OrgDirsDistinct | docs-generator/doc/doc.go:273-276 | distinct (repo, tag) org pages never share a directory |
| DocsDoc.DocDirsDistinct | docs-generator/doc/doc.go:375 | distinct (tag, GVK) doc pages never share a directory, and no doc page shares one with an org page |
| DocsDoc.RepoShortOfFullRepo | docs-generator/doc/doc.go:214 | the short name of a stored identity is the lower-cased repository name; fewer than three segments gives none |
| DocsDoc.FetchHomeRows | docs-generator/doc/doc.go:199-225 | the rows with their short names, or a panic when the query fails or a repository string has fewer than three segments |
| DocsDoc.Home | docs-generator/doc/doc.go:227-256 | written to the home directory; without a version it shows the first listed one, and panics when the list is empty |
| DocsDoc.Org | docs-generator/doc/doc.go:272-358 | written to the org directory, with the org outcome and the doc pages it built on the way |
| DocsDoc.Doc | docs-generator/doc/doc.go:374-447 | written to the doc directory, with the doc outcome |
| CmdDoc.OrgDirSegments | cmd/doc/main.go:180-183 | org pages go to outDir/org/repo, or outDir/org/repo/tag when a tag is given |
| CmdDoc.DocDirSegments | cmd/doc/main.go:271 | doc pages go to outDir/org/repo/tag/group/kind/version |
| CmdDoc.OrgDirsDistinct | cmd/doc/main.go:180-183 | distinct (org, repo, tag) org pages never share a directory |
| CmdDoc.DocDirsDistinct | cmd/doc/main.go:271 | distinct (org, repo, tag, GVK) doc pages never share a directory |
| CmdDoc.Org | cmd/doc/main.go:179-266 | written to the org directory, with the org outcome and the doc pages it built on the way (title at 199 and 207) |
| CmdDoc.Doc | cmd/doc/main.go:270-343 | written to the doc directory, with the doc outcome (title `kind.group/version` at 286) |

## Left out

- git (clone, tags, worktree, checkout, grep), the YAML and JSON libraries, `crd.NewCRDer`, `crd.PrettyGVK` and `crdutil.GetStoredGVK` appear only as their results. The package holding them is not part of this model. `PrettyGVK` is taken to be `group/version/kind`.
- Grep reports a result per matching line. The model collects a path at most once; a repeat in Go would only overwrite the same map entry.
- `iter.Close()` in the tag walk of `cmd/gitter` is taken to end the walk, so only the first matching reference is selected.
- SQL is not executed. The tables are maps keyed by their unique columns, (name, repo) for tags and (tag id, group, version, kind) for CRDs. Those constraints come from the schema, which is not part of this model.
- Several query behaviours are given as values, not computed:
  - `LOWER()` in the page queries;
  - the `ORDER BY` clauses;
  - `LIMIT 1`.
- `cmd/doc` picks the latest org page's tag with `ORDER BY time ASC` (cmd/doc/main.go:205), while its doc query uses `DESC` (cmd/doc/main.go:290). The model takes both query results as given and does not relate their orders. What it does capture is the consequence: when a row's doc query finds nothing, org panics.
- Scan errors are not modelled: the Go code logs them and keeps zero values. Errors that surface only through `Rows.Err()` are not modelled either; they panic.
- File system work is not modelled: temporary directories, `MkdirAll`, file creation, reads of the config file and template rendering. The early returns on those errors are left out, including doc's returns before its query.
- `YamlSplit`: the decoder's outcomes are the finite sequence of what it produces before `io.EOF`. A decoder that never reaches `io.EOF`, on which `splitYAML` would loop forever, is not modelled.
- `main` of each program is left out: flag parsing, opening the database, the loops over the configuration and the printing of errors. Two exceptions are modelled: the flattening of the configuration into units (`FlattenConfig`), and the call of `Index` per unit.
- The unused `readConfig` of `cmd/gitter` is left out. It is the same loop as `FlattenConfig`.
- `docs-generator/pkg/config` and `pkg/models` are not part of this model; their types appear as datatypes.
- `DocsGitter.StoredTimeRule`: times are (year, position within year). `AddDate(-50, 0, 0)` on 29 February, which Go normalises to 1 March, is not modelled.
- `Strings.ToLower`: only ASCII letters are folded. `strings.ToLower` also folds the rest of Unicode.
- `DocsGitter.Gitter.Index`: a `ResolveRevision` that returns neither a hash nor an error makes the Go code return a nil error. The model treats it as an error.
- Go `int` overflow in `buildInsert` and in the tag id is not modelled, because integers are unbounded here.
- Logging and the `reply` out-parameter of `Index` are left out.
