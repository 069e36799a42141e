/** The catalog store the indexers write to: a `tags` table unique on
    (name, repo) and a `crds` table unique on (tag_id, group, version, kind),
    whose batch insert ignores conflicting rows. SQL itself is not modelled:
    the tables are maps, and a failure of the database driver is a `fault`
    argument chosen by the caller. */
module Catalog {
  import opened Strings
  import opened YamlSplit

  /** A commit time: the calendar year and the position within that year. */
  datatype Time = Time(year: int, withinYear: int)

  predicate Before(a: Time, b: Time)
  {
    a.year < b.year || (a.year == b.year && a.withinYear < b.withinYear)
  }

  /** time.AddDate(n, 0, 0). */
  function AddYears(t: Time, n: int): Time
  {
    Time(t.year + n, t.withinYear)
  }

  datatype TagKey = TagKey(name: string, repo: string)
  datatype TagRow = TagRow(id: nat, time: Time)
  datatype CrdKey = CrdKey(tagId: int, group: string, version: string, kind: string)
  datatype CrdRow = CrdRow(filename: string, data: Bytes)
  type CrdEntry = (CrdKey, CrdRow)

  /** Outcome of `SELECT id FROM tags WHERE name=$1 AND repo=$2` and Scan. */
  datatype Lookup = Found(id: nat) | NoRows | LookupFailed

  /** A value bound to a positional parameter. */
  datatype Arg = Text(s: string) | Int(i: int) | Blob(b: Bytes)

  /** The six arguments of one crds row, in the column order
      group, version, kind, tag_id, filename, data. */
  function RowArgs(e: CrdEntry): seq<Arg>
  {
    [Text(e.0.group), Text(e.0.version), Text(e.0.kind), Int(e.0.tagId), Text(e.1.filename), Blob(e.1.data)]
  }

  /** The arguments of a batch of rows, row after row. */
  function ArgsOf(rows: seq<CrdEntry>): seq<Arg>
  {
    if rows == [] then [] else ArgsOf(rows[..|rows| - 1]) + RowArgs(rows[|rows| - 1])
  }

  /** How the driver binds arguments to a VALUES list of six-column groups:
      the i-th group takes arguments 6i+1 .. 6i+6. */
  function BindRows(args: seq<Arg>): Option<seq<CrdEntry>>
    decreases |args|
  {
    if args == [] then Some([])
    else if |args| < 6 then None
    else
      var n := |args| - 6;
      match (BindRows(args[..n]), args[n], args[n + 1], args[n + 2], args[n + 3], args[n + 4], args[n + 5])
      case (Some(rows), Text(g), Text(v), Text(k), Int(id), Text(f), Blob(d)) =>
        Some(rows + [(CrdKey(id, g, v, k), CrdRow(f, d))])
      case _ => None
  }

  /** Binding the arguments built for a batch gives the batch back; there are six per row. */
  lemma {:induction false} BindArgsOf(rows: seq<CrdEntry>)
    ensures |ArgsOf(rows)| == 6 * |rows|
    ensures BindRows(ArgsOf(rows)) == Some(rows)
  {
    if rows != [] {
      var init := rows[..|rows| - 1];
      BindArgsOf(init);
      var args := ArgsOf(rows);
      assert args[..|args| - 6] == ArgsOf(init);
      assert init + [rows[|rows| - 1]] == rows;
    }
  }

  // ---------------------------------------------------------------------
  // INSERT ... ON CONFLICT DO NOTHING
  // ---------------------------------------------------------------------

  ghost predicate SubMap<K, V>(a: map<K, V>, b: map<K, V>)
  {
    forall k :: k in a ==> k in b && b[k] == a[k]
  }

  /** Rows inserted in order; a row whose key is already present is ignored. */
  function InsertIgnoring(table: map<CrdKey, CrdRow>, rows: seq<CrdEntry>): map<CrdKey, CrdRow>
  {
    if rows == [] then table
    else
      var t := InsertIgnoring(table, rows[..|rows| - 1]);
      var e := rows[|rows| - 1];
      if e.0 in t then t else t[e.0 := e.1]
  }

  /** Nothing present is changed, and exactly the keys of the batch are added. */
  lemma {:induction false} InsertIgnoringGrows(table: map<CrdKey, CrdRow>, rows: seq<CrdEntry>)
    ensures SubMap(table, InsertIgnoring(table, rows))
    ensures InsertIgnoring(table, rows).Keys == table.Keys + set i | 0 <= i < |rows| :: rows[i].0
  {
    if rows != [] {
      var init := rows[..|rows| - 1];
      InsertIgnoringGrows(table, init);
      var s1 := set i | 0 <= i < |init| :: init[i].0;
      var s := set i | 0 <= i < |rows| :: rows[i].0;
      assert s == s1 + {rows[|rows| - 1].0} by {
        forall x | x in s ensures x in s1 + {rows[|rows| - 1].0} {
          var i :| 0 <= i < |rows| && rows[i].0 == x;
          if i < |init| { assert init[i] == rows[i]; }
        }
        forall x | x in s1 ensures x in s {
          var i :| 0 <= i < |init| && init[i].0 == x;
          assert rows[i] == init[i];
        }
      }
    }
  }

  /** A batch all of whose keys are present changes nothing. */
  lemma {:induction false} InsertIgnoringPresent(table: map<CrdKey, CrdRow>, rows: seq<CrdEntry>)
    requires forall i :: 0 <= i < |rows| ==> rows[i].0 in table
    ensures InsertIgnoring(table, rows) == table
  {
    if rows != [] {
      InsertIgnoringPresent(table, rows[..|rows| - 1]);
    }
  }

  /** Re-running the same batch is a no-op: the insert is idempotent. */
  lemma InsertIgnoringIdempotent(table: map<CrdKey, CrdRow>, rows: seq<CrdEntry>)
    ensures InsertIgnoring(InsertIgnoring(table, rows), rows) == InsertIgnoring(table, rows)
  {
    var t := InsertIgnoring(table, rows);
    InsertIgnoringGrows(table, rows);
    forall i | 0 <= i < |rows| ensures rows[i].0 in t {
      assert rows[i].0 in set j | 0 <= j < |rows| :: rows[j].0;
    }
    InsertIgnoringPresent(t, rows);
  }

  ghost function AllIds(tags: map<TagKey, TagRow>): set<int>
  {
    set k | k in tags :: tags[k].id as int
  }

  /** The ids of the tag rows of one repository. */
  ghost function RepoIds(tags: map<TagKey, TagRow>, repo: string): set<int>
  {
    set k | k in tags && k.repo == repo :: tags[k].id as int
  }

  /** Adding rows only adds ids. */
  lemma IdsGrow(a: map<TagKey, TagRow>, b: map<TagKey, TagRow>, repo: string)
    requires SubMap(a, b)
    ensures RepoIds(a, repo) <= RepoIds(b, repo)
    ensures AllIds(a) <= AllIds(b)
  {
    forall id | id in RepoIds(a, repo) ensures id in RepoIds(b, repo) {
      var k :| k in a && k.repo == repo && a[k].id as int == id;
      assert k in b && b[k] == a[k];
    }
    forall id | id in AllIds(a) ensures id in AllIds(b) {
      var k :| k in a && a[k].id as int == id;
      assert k in b && b[k] == a[k];
    }
  }

  lemma RepoIdsWithin(tags: map<TagKey, TagRow>, repo: string)
    ensures RepoIds(tags, repo) <= AllIds(tags)
  {
    forall id | id in RepoIds(tags, repo) ensures id in AllIds(tags) {
      var k :| k in tags && k.repo == repo && tags[k].id as int == id;
    }
  }

  /** Inserting a new tag row adds exactly its id: to all ids, and to the ids
      of its repository and of no other. */
  lemma InsertTagIds(tags: map<TagKey, TagRow>, k: TagKey, row: TagRow, repo: string)
    requires k !in tags
    ensures AllIds(tags[k := row]) == AllIds(tags) + {row.id as int}
    ensures RepoIds(tags[k := row], repo) == RepoIds(tags, repo) + (if k.repo == repo then {row.id as int} else {})
  {
    var t := tags[k := row];
    forall id | id in AllIds(t) ensures id in AllIds(tags) + {row.id as int} {
      var k' :| k' in t && t[k'].id as int == id;
      if k' != k {
        assert k' in tags && tags[k'] == t[k'];
      }
    }
    forall id | id in AllIds(tags) ensures id in AllIds(t) {
      var k' :| k' in tags && tags[k'].id as int == id;
      assert k' in t && t[k'] == tags[k'];
    }
    assert row.id as int in AllIds(t) by { assert k in t && t[k] == row; }
    forall id | id in RepoIds(t, repo) ensures id in RepoIds(tags, repo) + (if k.repo == repo then {row.id as int} else {}) {
      var k' :| k' in t && k'.repo == repo && t[k'].id as int == id;
      if k' != k {
        assert k' in tags && tags[k'] == t[k'];
      }
    }
    forall id | id in RepoIds(tags, repo) ensures id in RepoIds(t, repo) {
      var k' :| k' in tags && k'.repo == repo && tags[k'].id as int == id;
      assert k' in t && t[k'] == tags[k'];
    }
    if k.repo == repo {
      assert row.id as int in RepoIds(t, repo) by { assert k in t && t[k] == row; }
    }
  }

  // ---------------------------------------------------------------------
  // The store
  // ---------------------------------------------------------------------

  /** The contents of the store at one moment. */
  datatype Snapshot = Snapshot(tags: map<TagKey, TagRow>, crds: map<CrdKey, CrdRow>, nextId: nat)

  class Catalog {
    var tags: map<TagKey, TagRow>
    var crds: map<CrdKey, CrdRow>
    var nextId: nat

    ghost function State(): Snapshot
      reads this
    {
      Snapshot(tags, crds, nextId)
    }

    /** Tag ids are distinct and below the next id to be handed out. */
    ghost predicate Valid()
      reads this
    {
      (forall k :: k in tags ==> tags[k].id < nextId) &&
      (forall k1, k2 :: k1 in tags && k2 in tags && k1 != k2 ==> tags[k1].id != tags[k2].id)
    }

    ghost function TagIds(): set<int>
      reads this
    {
      AllIds(tags)
    }

    /** The ids of the tag rows of one repository. */
    ghost function RepoTagIds(repo: string): set<int>
      reads this
    {
      RepoIds(tags, repo)
    }

    /** Every CRD row belongs to a tag row. */
    ghost predicate Consistent()
      reads this
    {
      forall c :: c in crds ==> c.tagId in TagIds()
    }

    constructor ()
      ensures Valid() && Consistent()
      ensures tags == map[] && crds == map[] && nextId == 0
    {
      tags, crds, nextId := map[], map[], 0;
    }

    /** `SELECT id FROM tags WHERE name=$1 AND repo=$2`: the row's id, no rows,
        or a driver error. */
    method LookupTag(name: string, repo: string, fault: bool) returns (r: Lookup)
      ensures fault ==> r == LookupFailed
      ensures !fault && TagKey(name, repo) in tags ==> r == Found(tags[TagKey(name, repo)].id)
      ensures !fault && TagKey(name, repo) !in tags ==> r == NoRows
    {
      var k := TagKey(name, repo);
      if fault {
        r := LookupFailed;
      } else if k in tags {
        r := Found(tags[k].id);
      } else {
        r := NoRows;
      }
    }

    /** `INSERT INTO tags(name, repo, time) ... RETURNING id`: a fresh id, or an
        error when the driver fails or (name, repo) is already taken. */
    method InsertTag(name: string, repo: string, time: Time, fault: bool) returns (r: Option<nat>)
      requires Valid()
      modifies this
      ensures Valid()
      ensures crds == old(crds)
      ensures fault || TagKey(name, repo) in old(tags) ==>
                r == None && tags == old(tags) && nextId == old(nextId)
      ensures !fault && TagKey(name, repo) !in old(tags) ==>
                r == Some(old(nextId)) && nextId == old(nextId) + 1 &&
                tags == old(tags)[TagKey(name, repo) := TagRow(old(nextId), time)]
    {
      var k := TagKey(name, repo);
      if fault || k in tags {
        r := None;
      } else {
        r := Some(nextId);
        tags := tags[k := TagRow(nextId, time)];
        nextId := nextId + 1;
      }
    }

    /** The batch `INSERT INTO crds ... ON CONFLICT DO NOTHING`: all or nothing. */
    method InsertCrds(rows: seq<CrdEntry>, fault: bool) returns (ok: bool)
      modifies this
      ensures ok == !fault
      ensures tags == old(tags) && nextId == old(nextId)
      ensures crds == if fault then old(crds) else InsertIgnoring(old(crds), rows)
    {
      ok := !fault;
      if ok {
        crds := InsertIgnoring(crds, rows);
      }
    }
  }
}
