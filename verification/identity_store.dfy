/**
 * The two database tables the crawler writes, `hackathons` and `projects`, as an
 * in-memory store. Each table is keyed by `external_id`, the conflict key of every
 * upsert, so it holds at most one row per key; every row also carries the internal
 * `id` the database allocated when the row was first inserted.
 */
module IdentityStore {
  import opened Wrappers

  /** The columns `load_all_data` writes into a hackathon row. */
  datatype HackathonFields = HackathonFields(
    externalId: string,
    organizationId: string,
    organizationName: string,
    organizationSlug: string,
    slug: string,
    name: string,
    industries: seq<string>,
    processed: bool)

  /**
   * A stored hackathon: its internal id, the upserted columns, and the two columns
   * that only `load_hackathons` writes (NULL, here `None`, until then).
   */
  datatype HackathonRow = HackathonRow(
    id: nat,
    fields: HackathonFields,
    url: Option<string>,
    description: Option<string>)

  /** The columns `load_all_data` writes into a project row. */
  datatype ProjectFields = ProjectFields(
    externalId: string,
    hackathonId: nat,
    title: string,
    description: string,
    tags: seq<string>,
    url: string,
    processed: bool)

  datatype ProjectRow = ProjectRow(id: nat, fields: ProjectFields)

  /** Both tables, keyed by `external_id`, and the next internal id of each. */
  datatype Tables = Tables(
    hackathons: map<string, HackathonRow>,
    projects: map<string, ProjectRow>,
    nextHackathonId: nat,
    nextProjectId: nat)

  /** The internal ids of the stored hackathons. */
  function HackathonIds(t: Tables): set<nat> {
    set k | k in t.hackathons :: t.hackathons[k].id
  }

  /** The external ids named by a batch of project rows. */
  function ExternalIds(rows: seq<ProjectFields>): set<string> {
    set r | r in rows :: r.externalId
  }

  /**
   * The store's invariant: every row sits under its own `external_id`, internal ids
   * are allocated below the counter and never shared by two rows of a table, and
   * every project points at a stored hackathon.
   */
  predicate Consistent(t: Tables) {
    && Indexed(t.hackathons, t.nextHackathonId)
    && ProjectsIndexed(t.projects, t.nextProjectId)
    && (forall k :: k in t.projects ==> t.projects[k].fields.hackathonId in HackathonIds(t))
  }

  /** Hackathon rows sit under their `external_id` and have distinct ids below `next`. */
  predicate Indexed(rows: map<string, HackathonRow>, next: nat) {
    && (forall k :: k in rows ==> rows[k].fields.externalId == k && rows[k].id < next)
    && DistinctIds(rows)
  }

  /** No two hackathon rows share an internal id. */
  predicate DistinctIds(rows: map<string, HackathonRow>) {
    forall k, k' :: k in rows && k' in rows && rows[k].id == rows[k'].id ==> k == k'
  }

  /** `get_existing_hackathon_ids()`: the stored keys, or nothing when the query failed. */
  function StoredIds(t: Tables, lookupFailed: bool): set<string> {
    if lookupFailed then {} else t.hackathons.Keys
  }

  /** Project rows sit under their `external_id` and have distinct ids below `next`. */
  predicate ProjectsIndexed(rows: map<string, ProjectRow>, next: nat) {
    && (forall k :: k in rows ==> rows[k].fields.externalId == k && rows[k].id < next)
    && (forall k, k' :: k in rows && k' in rows && rows[k].id == rows[k'].id ==> k == k')
  }

  // ---------------------------------------------------------------------------
  // Upsert on conflict external_id
  // ---------------------------------------------------------------------------

  /**
   * `upsert(data, on_conflict=external_id)` on `hackathons`: the new tables and the
   * id of the row. An existing row keeps its id and the columns the payload does not
   * name (`url`, `description`); every named column is overwritten.
   */
  function HackathonUpserted(t: Tables, d: HackathonFields): (Tables, nat) {
    var k := d.externalId;
    if k in t.hackathons then
      var row := t.hackathons[k];
      (t.(hackathons := t.hackathons[k := row.(fields := d)]), row.id)
    else
      var id := t.nextHackathonId;
      (t.(hackathons := t.hackathons[k := HackathonRow(id, d, None, None)], nextHackathonId := id + 1), id)
  }

  lemma HackathonIdsOfUpserted(t: Tables, d: HackathonFields)
    ensures var (t', id) := HackathonUpserted(t, d);
      HackathonIds(t') == HackathonIds(t) + {id}
  {
    var (t', id) := HackathonUpserted(t, d);
    var k := d.externalId;
    forall x | x in HackathonIds(t) ensures x in HackathonIds(t') {
      var j :| j in t.hackathons && t.hackathons[j].id == x;
      assert j in t'.hackathons && t'.hackathons[j].id == x;
    }
    assert k in t'.hackathons && t'.hackathons[k].id == id;
    forall x | x in HackathonIds(t') ensures x in HackathonIds(t) + {id} {
      var j :| j in t'.hackathons && t'.hackathons[j].id == x;
      if j != k {
        assert t.hackathons[j].id == x;
      }
    }
  }

  lemma HackathonUpsertedSpec(t: Tables, d: HackathonFields)
    requires Consistent(t)
    ensures var (t', id) := HackathonUpserted(t, d);
      && Consistent(t')
      && t'.projects == t.projects
      && t'.hackathons.Keys == t.hackathons.Keys + {d.externalId}
      && t'.hackathons[d.externalId].id == id
      && t'.hackathons[d.externalId].fields == d
      && HackathonIds(t') == HackathonIds(t) + {id}
      && (d.externalId in t.hackathons ==>
            && id == t.hackathons[d.externalId].id
            && t'.hackathons[d.externalId].url == t.hackathons[d.externalId].url
            && t'.hackathons[d.externalId].description == t.hackathons[d.externalId].description)
      && (d.externalId !in t.hackathons ==>
            id !in HackathonIds(t) && t'.hackathons[d.externalId].url.None?
            && t'.hackathons[d.externalId].description.None?)
      && (forall k :: k in t.hackathons && k != d.externalId ==> t'.hackathons[k] == t.hackathons[k])
  {
    HackathonIdsOfUpserted(t, d);
    HackathonUpsertedFrame(t, d);
    var (t', id) := HackathonUpserted(t, d);
    if d.externalId !in t.hackathons {
      assert id !in HackathonIds(t);
    }
  }

  lemma HackathonUpsertedFrame(t: Tables, d: HackathonFields)
    ensures var (t', id) := HackathonUpserted(t, d);
      && t'.projects == t.projects
      && t'.hackathons.Keys == t.hackathons.Keys + {d.externalId}
      && t'.hackathons[d.externalId] == (
           if d.externalId in t.hackathons then t.hackathons[d.externalId].(fields := d)
           else HackathonRow(t.nextHackathonId, d, None, None))
      && t'.nextHackathonId == (if d.externalId in t.hackathons then t.nextHackathonId else t.nextHackathonId + 1)
      && (forall k :: k in t.hackathons && k != d.externalId ==> t'.hackathons[k] == t.hackathons[k])
  {
    if d.externalId in t.hackathons {
    } else {
    }
  }

  /** `upsert` of one project row on conflict `external_id`: the whole row is overwritten, its id kept. */
  function ProjectUpserted(t: Tables, d: ProjectFields): Tables {
    var k := d.externalId;
    if k in t.projects then
      t.(projects := t.projects[k := ProjectRow(t.projects[k].id, d)])
    else
      t.(projects := t.projects[k := ProjectRow(t.nextProjectId, d)], nextProjectId := t.nextProjectId + 1)
  }

  /** A batch upsert of project rows, taken in order: the last row with a key wins. */
  function ProjectsUpserted(t: Tables, rows: seq<ProjectFields>): Tables {
    if rows == [] then t
    else ProjectUpserted(ProjectsUpserted(t, rows[..|rows| - 1]), rows[|rows| - 1])
  }

  lemma ProjectUpsertedSpec(t: Tables, d: ProjectFields)
    requires Consistent(t) && d.hackathonId in HackathonIds(t)
    ensures var t' := ProjectUpserted(t, d);
      && Consistent(t')
      && t'.hackathons == t.hackathons
      && t'.nextHackathonId == t.nextHackathonId
      && t'.projects.Keys == t.projects.Keys + {d.externalId}
      && t'.projects[d.externalId].fields == d
      && (forall k :: k in t.projects ==> t'.projects[k].id == t.projects[k].id)
      && (forall k :: k in t.projects && k != d.externalId ==> t'.projects[k] == t.projects[k])
  {
    ProjectUpsertedConsistent(t, d);
    ProjectUpsertedFrame(t, d);
  }

  lemma ProjectUpsertedFrame(t: Tables, d: ProjectFields)
    ensures var t' := ProjectUpserted(t, d);
      && t'.hackathons == t.hackathons
      && t'.nextHackathonId == t.nextHackathonId
      && t'.projects.Keys == t.projects.Keys + {d.externalId}
      && t'.projects[d.externalId].fields == d
      && (forall k :: k in t.projects ==> t'.projects[k].id == t.projects[k].id)
      && (forall k :: k in t.projects && k != d.externalId ==> t'.projects[k] == t.projects[k])
  {
    if d.externalId in t.projects {
    } else {
    }
  }

  lemma ProjectUpsertedConsistent(t: Tables, d: ProjectFields)
    requires Consistent(t) && d.hackathonId in HackathonIds(t)
    ensures Consistent(ProjectUpserted(t, d))
  {
    var t' := ProjectUpserted(t, d);
    assert t'.hackathons == t.hackathons && t'.nextHackathonId == t.nextHackathonId;
    assert HackathonIds(t') == HackathonIds(t);
    ProjectsIndexedOfUpserted(t, d);
    forall k | k in t'.projects ensures t'.projects[k].fields.hackathonId in HackathonIds(t') {
      if k != d.externalId {
        assert t'.projects[k] == t.projects[k];
      }
    }
  }

  lemma ProjectsIndexedOfUpserted(t: Tables, d: ProjectFields)
    requires ProjectsIndexed(t.projects, t.nextProjectId)
    ensures var t' := ProjectUpserted(t, d); ProjectsIndexed(t'.projects, t'.nextProjectId)
  {
    var t' := ProjectUpserted(t, d);
    var k := d.externalId;
    if k !in t.projects {
      forall j | j in t.projects ensures t.projects[j].id != t'.projects[k].id {
      }
    }
  }

  /** The batch keeps the store consistent and leaves the hackathons alone. */
  lemma {:induction false} ProjectsUpsertedConsistent(t: Tables, rows: seq<ProjectFields>)
    requires Consistent(t)
    requires forall i :: 0 <= i < |rows| ==> rows[i].hackathonId in HackathonIds(t)
    ensures var t' := ProjectsUpserted(t, rows);
      && Consistent(t')
      && t'.hackathons == t.hackathons
      && t'.nextHackathonId == t.nextHackathonId
  {
    if rows != [] {
      var init := rows[..|rows| - 1];
      ProjectsUpsertedConsistent(t, init);
      var t1 := ProjectsUpserted(t, init);
      assert HackathonIds(t1) == HackathonIds(t);
      ProjectUpsertedSpec(t1, rows[|rows| - 1]);
    }
  }

  /**
   * A batch upsert adds exactly the keys of the batch, keeps the id of every row that
   * was there and leaves every row outside the batch as it was.
   */
  lemma {:induction false} ProjectsUpsertedKeys(t: Tables, rows: seq<ProjectFields>)
    ensures var t' := ProjectsUpserted(t, rows);
      && t'.projects.Keys == t.projects.Keys + ExternalIds(rows)
      && (forall k :: k in t.projects ==> t'.projects[k].id == t.projects[k].id)
      && (forall k :: k in t.projects && k !in ExternalIds(rows) ==> t'.projects[k] == t.projects[k])
  {
    if rows != [] {
      var init, last := rows[..|rows| - 1], rows[|rows| - 1];
      assert rows == init + [last];
      assert ExternalIds(rows) == ExternalIds(init) + {last.externalId};
      ProjectsUpsertedKeys(t, init);
    }
  }

  /** Every key the batch names ends up holding one of the batch's rows. */
  lemma {:induction false} ProjectsUpsertedFromBatch(t: Tables, rows: seq<ProjectFields>)
    ensures var t' := ProjectsUpserted(t, rows);
      forall k :: k in ExternalIds(rows) ==> k in t'.projects && t'.projects[k].fields in rows
  {
    if rows != [] {
      var init, last := rows[..|rows| - 1], rows[|rows| - 1];
      assert rows == init + [last];
      assert ExternalIds(rows) == ExternalIds(init) + {last.externalId};
      ProjectsUpsertedFromBatch(t, init);
    }
  }

  /** Every row of the batch that no later row of the batch overrides is stored as given. */
  lemma {:induction false} ProjectsUpsertedLastWins(t: Tables, rows: seq<ProjectFields>)
    ensures var t' := ProjectsUpserted(t, rows);
      forall i :: 0 <= i < |rows| && (forall j :: i < j < |rows| ==> rows[j].externalId != rows[i].externalId) ==>
        rows[i].externalId in t'.projects && t'.projects[rows[i].externalId].fields == rows[i]
  {
    if rows != [] {
      var init, last := rows[..|rows| - 1], rows[|rows| - 1];
      ProjectsUpsertedLastWins(t, init);
      var t1 := ProjectsUpserted(t, init);
      var t' := ProjectsUpserted(t, rows);
      assert t' == ProjectUpserted(t1, last);
      ProjectUpsertedFrame(t1, last);
      forall i | 0 <= i < |rows| && (forall j :: i < j < |rows| ==> rows[j].externalId != rows[i].externalId)
        ensures rows[i].externalId in t'.projects && t'.projects[rows[i].externalId].fields == rows[i]
      {
        if i < |rows| - 1 {
          assert rows[i] == init[i];
          assert last.externalId != rows[i].externalId;
          assert forall j :: i < j < |init| ==> init[j] == rows[j];
        }
      }
    }
  }

  // ---------------------------------------------------------------------------
  // The rows load_hackathons selects and the update it issues
  // ---------------------------------------------------------------------------

  /** The columns `load_hackathons` selects: `id, slug, organization_slug`. */
  datatype PendingRow = PendingRow(id: nat, slug: string, organizationSlug: string)

  function Selected(row: HackathonRow): PendingRow {
    PendingRow(row.id, row.fields.slug, row.fields.organizationSlug)
  }

  /** `select("id, slug, organization_slug").eq("processed", False)`, in no particular order. */
  function PendingRows(rows: map<string, HackathonRow>): set<PendingRow> {
    set k | k in rows && !rows[k].fields.processed :: Selected(rows[k])
  }

  /**
   * With distinct row ids, a stored hackathon is selected exactly when it is not yet
   * processed, and everything selected comes from a stored unprocessed row.
   */
  lemma PendingRowsSpec(rows: map<string, HackathonRow>, next: nat)
    requires Indexed(rows, next)
    ensures forall k :: k in rows ==> (Selected(rows[k]) in PendingRows(rows) <==> !rows[k].fields.processed)
    ensures forall p :: p in PendingRows(rows) ==> exists k :: k in rows && !rows[k].fields.processed && p == Selected(rows[k])
  {
    forall k | k in rows && Selected(rows[k]) in PendingRows(rows)
      ensures !rows[k].fields.processed
    {
      var k' :| k' in rows && !rows[k'].fields.processed && Selected(rows[k']) == Selected(rows[k]);
      assert rows[k'].id == rows[k].id;
    }
  }

  /** A row after `update({"url": .., "description": .., "processed": True})`. */
  function Marked(row: HackathonRow, url: string, description: string): HackathonRow {
    row.(url := Some(url), description := Some(description), fields := row.fields.(processed := true))
  }

  /** `update(...).eq("id", id)`: every row with that internal id is marked. */
  function UpdatedById(rows: map<string, HackathonRow>, id: nat, url: string, description: string): map<string, HackathonRow> {
    map k | k in rows :: if rows[k].id == id then Marked(rows[k], url, description) else rows[k]
  }

  // ---------------------------------------------------------------------------
  // The store
  // ---------------------------------------------------------------------------

  class Store {
    var hackathons: map<string, HackathonRow>
    var projects: map<string, ProjectRow>
    var nextHackathonId: nat
    var nextProjectId: nat

    /** The value of both tables. */
    function Snapshot(): Tables
      reads this
    {
      Tables(hackathons, projects, nextHackathonId, nextProjectId)
    }

    predicate Valid()
      reads this
    {
      Consistent(Snapshot())
    }

    /** Empty tables; identity columns start at 1. */
    constructor ()
      ensures Valid()
      ensures Snapshot() == Tables(map[], map[], 1, 1)
    {
      hackathons, projects := map[], map[];
      nextHackathonId, nextProjectId := 1, 1;
    }

    /**
     * `get_existing_hackathon_ids`: the `external_id` of every stored hackathon, or
     * the empty set when the query fails.
     */
    method ExistingHackathonIds(lookupFailed: bool) returns (ids: set<string>)
      requires Valid()
      ensures ids == StoredIds(Snapshot(), lookupFailed)
    {
      if lookupFailed {
        return {};
      }
      ids := set k | k in hackathons :: hackathons[k].fields.externalId;
    }

    method UpsertHackathon(d: HackathonFields) returns (id: nat)
      requires Valid()
      modifies this
      ensures Valid()
      ensures (Snapshot(), id) == HackathonUpserted(old(Snapshot()), d)
    {
      ghost var after := HackathonUpserted(Snapshot(), d);
      HackathonUpsertedSpec(Snapshot(), d);
      var k := d.externalId;
      if k in hackathons {
        id := hackathons[k].id;
        hackathons := hackathons[k := hackathons[k].(fields := d)];
      } else {
        id := nextHackathonId;
        hackathons := hackathons[k := HackathonRow(id, d, None, None)];
        nextHackathonId := nextHackathonId + 1;
      }
      assert (Snapshot(), id) == after;
    }

    /** One batch `upsert(rows, on_conflict=external_id)` on `projects`. */
    method UpsertProjects(rows: seq<ProjectFields>)
      requires Valid()
      requires forall i :: 0 <= i < |rows| ==> rows[i].hackathonId in HackathonIds(Snapshot())
      modifies this
      ensures Valid()
      ensures Snapshot() == ProjectsUpserted(old(Snapshot()), rows)
    {
      ProjectsUpsertedConsistent(Snapshot(), rows);
      var t := ProjectsUpserted(Snapshot(), rows);
      projects, nextProjectId := t.projects, t.nextProjectId;
    }

    method SelectPending() returns (pending: set<PendingRow>)
      requires Valid()
      ensures pending == PendingRows(hackathons)
      ensures forall k :: k in hackathons ==> (Selected(hackathons[k]) in pending <==> !hackathons[k].fields.processed)
      ensures forall p :: p in pending ==> exists k :: k in hackathons && !hackathons[k].fields.processed && p == Selected(hackathons[k])
    {
      pending := set k | k in hackathons && !hackathons[k].fields.processed :: Selected(hackathons[k]);
      PendingRowsSpec(hackathons, nextHackathonId);
    }

    /** `update({"url": url, "description": description, "processed": True}).eq("id", id)`. */
    method UpdateHackathon(id: nat, url: string, description: string)
      requires Valid()
      modifies this
      ensures Valid()
      ensures hackathons == UpdatedById(old(hackathons), id, url, description)
      ensures projects == old(projects)
      ensures nextHackathonId == old(nextHackathonId) && nextProjectId == old(nextProjectId)
    {
      var before := Snapshot();
      hackathons := UpdatedById(hackathons, id, url, description);
      assert HackathonIds(Snapshot()) == HackathonIds(before) by {
        forall x | x in HackathonIds(before) ensures x in HackathonIds(Snapshot()) {
          var j :| j in before.hackathons && before.hackathons[j].id == x;
          assert hackathons[j].id == x;
        }
      }
    }
  }
}
