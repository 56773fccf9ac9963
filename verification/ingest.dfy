/**
 * `load_all_data` of main.py: read the stored hackathon ids once, walk listing
 * pages 0..19, keep every closed challenge whose id was not stored when the run
 * began, upsert it as a hackathon and upsert one project row per project fetched
 * for it.
 *
 * The remote API is given as its outcomes: `listing[p]` is what fetching page `p`
 * returned (a page past the end of `listing` returned nothing), and `source[id]`
 * the projects fetched for challenge `id` (a missing entry returned nothing). A
 * non-200 answer or an unparseable body is the empty list, as the fetchers map it.
 */
module Ingest {
  import opened Wrappers
  import opened TextNormalizer
  import opened IdentityStore

  /** `for page in range(20)`. */
  const PAGE_COUNT := 20

  const PROJECT_URL_PREFIX := "https://taikai.network/project/"

  datatype Organization = Organization(id: string, name: string, slug: string)

  /**
   * One challenge of a listing page. `name` is `None` when the field is missing or
   * null, and a saved row then gets "" as its name. `isClosed` is `None` when the field
   * is missing or null, and such a challenge counts as open. An absent `slug` is "".
   */
  datatype Challenge = Challenge(
    id: string,
    name: Option<string>,
    slug: string,
    isClosed: Option<bool>,
    organization: Organization,
    industries: seq<string>)

  /** One project of a challenge, as fetched. */
  datatype Project = Project(id: string, name: Option<string>, description: Option<string>)

  /** What `fetch_challenges_page(page)` returned. */
  function Page(listing: seq<seq<Challenge>>, page: nat): seq<Challenge> {
    if page < |listing| then listing[page] else []
  }

  /** What `fetch_projects_for_challenge(id)` returned. */
  function ProjectsOf(source: map<string, seq<Project>>, challengeId: string): seq<Project> {
    if challengeId in source then source[challengeId] else []
  }

  /** `ch.get("isClosed", False)`: a missing flag counts as open. */
  predicate IsClosed(ch: Challenge) {
    ch.isClosed.GetOr(false)
  }

  /** The challenges the loop saves: closed and not among the ids stored at the start. */
  predicate Wanted(ch: Challenge, stored: set<string>) {
    IsClosed(ch) && ch.id !in stored
  }

  /** The `hackathon_data` payload built from a challenge. */
  function HackathonPayload(cat: CategoryOf, ch: Challenge): HackathonFields {
    HackathonFields(
      ch.id, ch.organization.id, ch.organization.name, ch.organization.slug,
      ch.slug, Cleaned(cat, ch.name), ch.industries, false)
  }

  /** The `project_data` row built from a fetched project. */
  function ProjectPayload(cat: CategoryOf, p: Project, hackathonId: nat): ProjectFields {
    ProjectFields(
      p.id, hackathonId, Cleaned(cat, p.name), Cleaned(cat, p.description),
      [], PROJECT_URL_PREFIX + p.id, false)
  }

  function ProjectPayloads(cat: CategoryOf, ps: seq<Project>, hackathonId: nat): seq<ProjectFields> {
    seq(|ps|, i requires 0 <= i < |ps| => ProjectPayload(cat, ps[i], hackathonId))
  }

  /** The `project_data` dictionary of one project. */
  method BuildProjectRecord(cat: CategoryOf, p: Project, hackathonId: nat) returns (row: ProjectFields)
    ensures row == ProjectPayload(cat, p, hackathonId)
  {
    var title := CleanText(cat, p.name);
    var description := CleanText(cat, p.description);
    row := ProjectFields(p.id, hackathonId, title, description, [], PROJECT_URL_PREFIX + p.id, false);
  }

  /** The `for p in projects` loop that fills `project_records`. */
  method BuildProjectRecords(cat: CategoryOf, projects: seq<Project>, hackathonId: nat)
    returns (records: seq<ProjectFields>)
    ensures |records| == |projects|
    ensures forall i :: 0 <= i < |projects| ==>
      && records[i].externalId == projects[i].id
      && records[i].hackathonId == hackathonId
      && records[i].title == Cleaned(cat, projects[i].name)
      && records[i].description == Cleaned(cat, projects[i].description)
      && records[i].tags == []
      && records[i].url == PROJECT_URL_PREFIX + projects[i].id
      && !records[i].processed
    ensures records == ProjectPayloads(cat, projects, hackathonId)
  {
    records := [];
    for i := 0 to |projects|
      invariant records == ProjectPayloads(cat, projects[..i], hackathonId)
    {
      var row := BuildProjectRecord(cat, projects[i], hackathonId);
      PayloadsSnoc(cat, projects, i, hackathonId);
      records := records + [row];
    }
    assert projects[..|projects|] == projects;
  }

  lemma PayloadsSnoc(cat: CategoryOf, ps: seq<Project>, i: nat, hackathonId: nat)
    requires i < |ps|
    ensures ProjectPayloads(cat, ps[..i + 1], hackathonId)
         == ProjectPayloads(cat, ps[..i], hackathonId) + [ProjectPayload(cat, ps[i], hackathonId)]
  {
  }

  // ---------------------------------------------------------------------------
  // The run as a function of the tables
  // ---------------------------------------------------------------------------

  /** One pass of the `for ch in challenges` loop. */
  function AfterChallenge(cat: CategoryOf, source: map<string, seq<Project>>, stored: set<string>, t: Tables, ch: Challenge): Tables {
    if !Wanted(ch, stored) then t
    else
      var (t1, hackathonId) := HackathonUpserted(t, HackathonPayload(cat, ch));
      var records := ProjectPayloads(cat, ProjectsOf(source, ch.id), hackathonId);
      if records == [] then t1 else ProjectsUpserted(t1, records)
  }

  /** The loop over a sequence of challenges, in order. */
  function AfterChallenges(cat: CategoryOf, source: map<string, seq<Project>>, stored: set<string>, t: Tables, chs: seq<Challenge>): Tables {
    if chs == [] then t
    else AfterChallenge(cat, source, stored, AfterChallenges(cat, source, stored, t, chs[..|chs| - 1]), chs[|chs| - 1])
  }

  /** The pages, one after another. */
  function Flatten(pages: seq<seq<Challenge>>): seq<Challenge> {
    if pages == [] then [] else Flatten(pages[..|pages| - 1]) + pages[|pages| - 1]
  }

  /** The answers to the twenty page requests. */
  function Responses(listing: seq<seq<Challenge>>): seq<seq<Challenge>> {
    seq(PAGE_COUNT, p requires 0 <= p < PAGE_COUNT => Page(listing, p))
  }

  /** The tables after `load_all_data`. */
  function Ingested(cat: CategoryOf, source: map<string, seq<Project>>, listing: seq<seq<Challenge>>, lookupFailed: bool, t: Tables): Tables {
    AfterChallenges(cat, source, StoredIds(t, lookupFailed), t, Flatten(Responses(listing)))
  }

  /** One pass of the `for ch in challenges` loop body. */
  method SaveChallenge(store: Store, cat: CategoryOf, source: map<string, seq<Project>>, storedIds: set<string>, ch: Challenge)
    requires store.Valid()
    modifies store
    ensures store.Valid()
    ensures store.Snapshot() == AfterChallenge(cat, source, storedIds, old(store.Snapshot()), ch)
  {
    if !ch.isClosed.GetOr(false) {
      return;
    }
    if ch.id in storedIds {
      return;
    }
    var name := CleanText(cat, ch.name);
    var hackathonData := HackathonFields(
      ch.id, ch.organization.id, ch.organization.name, ch.organization.slug,
      ch.slug, name, ch.industries, false);
    ghost var t1 := store.Snapshot();
    var hackathonId := store.UpsertHackathon(hackathonData);
    HackathonIdsOfUpserted(t1, hackathonData);
    var projects := ProjectsOf(source, ch.id);
    var projectRecords := BuildProjectRecords(cat, projects, hackathonId);
    if projectRecords != [] {
      store.UpsertProjects(projectRecords);
    }
  }

  /** Walking two runs of challenges one after the other is walking their concatenation. */
  lemma {:induction false} AfterChallengesAppend(cat: CategoryOf, source: map<string, seq<Project>>, stored: set<string>, t: Tables, a: seq<Challenge>, b: seq<Challenge>)
    ensures AfterChallenges(cat, source, stored, t, a + b)
         == AfterChallenges(cat, source, stored, AfterChallenges(cat, source, stored, t, a), b)
  {
    if b == [] {
      assert a + b == a;
    } else {
      var init, last := b[..|b| - 1], b[|b| - 1];
      assert (a + b)[..|a + b| - 1] == a + init;
      AfterChallengesAppend(cat, source, stored, t, a, init);
    }
  }

  /** The `for ch in challenges` loop over one page. */
  method SavePage(store: Store, cat: CategoryOf, source: map<string, seq<Project>>, storedIds: set<string>, challenges: seq<Challenge>)
    requires store.Valid()
    modifies store
    ensures store.Valid()
    ensures store.Snapshot() == AfterChallenges(cat, source, storedIds, old(store.Snapshot()), challenges)
  {
    ghost var t0 := store.Snapshot();
    for i := 0 to |challenges|
      invariant store.Valid()
      invariant store.Snapshot() == AfterChallenges(cat, source, storedIds, t0, challenges[..i])
    {
      assert challenges[..i + 1][..i] == challenges[..i];
      SaveChallenge(store, cat, source, storedIds, challenges[i]);
    }
    assert challenges[..|challenges|] == challenges;
  }

  method LoadAllData(store: Store, cat: CategoryOf, listing: seq<seq<Challenge>>, source: map<string, seq<Project>>, lookupFailed: bool)
    requires store.Valid()
    modifies store
    ensures store.Valid()
    ensures store.Snapshot() == Ingested(cat, source, listing, lookupFailed, old(store.Snapshot()))
  {
    ghost var t0 := store.Snapshot();
    ghost var responses := Responses(listing);
    var storedIds := store.ExistingHackathonIds(lookupFailed);
    for page := 0 to PAGE_COUNT
      invariant store.Valid()
      invariant store.Snapshot() == AfterChallenges(cat, source, storedIds, t0, Flatten(responses[..page]))
    {
      var challenges := Page(listing, page);
      assert responses[..page + 1] == responses[..page] + [challenges];
      AfterChallengesAppend(cat, source, storedIds, t0, Flatten(responses[..page]), challenges);
      if challenges == [] {
        continue;
      }
      SavePage(store, cat, source, storedIds, challenges);
    }
    assert responses[..PAGE_COUNT] == responses;
  }

  // ---------------------------------------------------------------------------
  // What one challenge does to the tables
  // ---------------------------------------------------------------------------

  /** The external ids of a list of fetched projects. */
  function ProjectIds(ps: seq<Project>): set<string> {
    set p | p in ps :: p.id
  }

  lemma ExternalIdsOfPayloads(cat: CategoryOf, ps: seq<Project>, hackathonId: nat)
    ensures ExternalIds(ProjectPayloads(cat, ps, hackathonId)) == ProjectIds(ps)
  {
    var rows := ProjectPayloads(cat, ps, hackathonId);
    forall k | k in ProjectIds(ps) ensures k in ExternalIds(rows) {
      var i :| 0 <= i < |ps| && ps[i].id == k;
      assert rows[i].externalId == k;
    }
    forall k | k in ExternalIds(rows) ensures k in ProjectIds(ps) {
      var i :| 0 <= i < |rows| && rows[i].externalId == k;
      assert ps[i] in ps;
    }
  }

  /**
   * A challenge that is open (or has no flag) or whose id was stored at the start
   * leaves the tables alone. A wanted one leaves exactly one hackathon row under its
   * id, holding the payload (so `processed` is false again); an existing row keeps
   * its internal id, url and description, a new one gets a fresh id and no url or
   * description yet. Every other hackathon row is unchanged.
   */
  lemma AfterChallengeHackathon(cat: CategoryOf, source: map<string, seq<Project>>, stored: set<string>, t: Tables, ch: Challenge)
    requires Consistent(t)
    ensures var t' := AfterChallenge(cat, source, stored, t, ch);
      && Consistent(t')
      && (!Wanted(ch, stored) ==> t' == t)
      && (Wanted(ch, stored) ==>
            && t'.hackathons.Keys == t.hackathons.Keys + {ch.id}
            && t'.hackathons[ch.id].fields == HackathonPayload(cat, ch)
            && !t'.hackathons[ch.id].fields.processed
            && (ch.id in t.hackathons ==>
                  && t'.hackathons[ch.id].id == t.hackathons[ch.id].id
                  && t'.hackathons[ch.id].url == t.hackathons[ch.id].url
                  && t'.hackathons[ch.id].description == t.hackathons[ch.id].description)
            && (ch.id !in t.hackathons ==>
                  && t'.hackathons[ch.id].id !in HackathonIds(t)
                  && t'.hackathons[ch.id].url.None?
                  && t'.hackathons[ch.id].description.None?)
            && (forall k :: k in t.hackathons && k != ch.id ==> t'.hackathons[k] == t.hackathons[k]))
  {
    if Wanted(ch, stored) {
      var d := HackathonPayload(cat, ch);
      HackathonUpsertedSpec(t, d);
      var (t1, hackathonId) := HackathonUpserted(t, d);
      var records := ProjectPayloads(cat, ProjectsOf(source, ch.id), hackathonId);
      ProjectsUpsertedConsistent(t1, records);
    }
  }

  /** The columns every built project row shares: its hackathon, no tags, not processed, its page. */
  predicate BuiltFor(row: ProjectFields, hackathonId: nat) {
    && row.hackathonId == hackathonId
    && row.tags == []
    && !row.processed
    && row.url == PROJECT_URL_PREFIX + row.externalId
  }

  /** Every row a payload batch leaves under a fetched id is one built for that hackathon. */
  lemma PayloadBatchRows(cat: CategoryOf, t: Tables, ps: seq<Project>, hackathonId: nat)
    ensures var t' := ProjectsUpserted(t, ProjectPayloads(cat, ps, hackathonId));
      forall p :: p in ps ==> p.id in t'.projects && BuiltFor(t'.projects[p.id].fields, hackathonId)
  {
    var records := ProjectPayloads(cat, ps, hackathonId);
    assert forall r :: r in records ==> BuiltFor(r, hackathonId);
    ExternalIdsOfPayloads(cat, ps, hackathonId);
    ProjectsUpsertedFromBatch(t, records);
  }

  /** A project of the batch that no later project overrides is stored exactly as built. */
  lemma PayloadBatchLastWins(cat: CategoryOf, t: Tables, ps: seq<Project>, hackathonId: nat)
    ensures var t' := ProjectsUpserted(t, ProjectPayloads(cat, ps, hackathonId));
      forall i :: 0 <= i < |ps| && (forall j :: i < j < |ps| ==> ps[j].id != ps[i].id) ==>
        ps[i].id in t'.projects && t'.projects[ps[i].id].fields == ProjectPayload(cat, ps[i], hackathonId)
  {
    var records := ProjectPayloads(cat, ps, hackathonId);
    ProjectsUpsertedLastWins(t, records);
    assert forall j :: 0 <= j < |records| ==> records[j].externalId == ps[j].id;
  }

  /**
   * The projects a wanted challenge brings: one row per fetched project id, each
   * pointing at the id the hackathon upsert returned, with no tags, not processed,
   * and the project page as url; a project that does not appear again later in the
   * list is stored exactly as built. Rows of other projects are unchanged, and
   * nothing is written when no project was fetched.
   */
  lemma AfterChallengeProjects(cat: CategoryOf, source: map<string, seq<Project>>, stored: set<string>, t: Tables, ch: Challenge)
    requires Consistent(t) && Wanted(ch, stored)
    ensures var t' := AfterChallenge(cat, source, stored, t, ch);
      var ps := ProjectsOf(source, ch.id);
      var hackathonId := HackathonUpserted(t, HackathonPayload(cat, ch)).1;
      && t'.projects.Keys == t.projects.Keys + ProjectIds(ps)
      && (ps == [] ==> t'.projects == t.projects)
      && (forall k :: k in t.projects && k !in ProjectIds(ps) ==> t'.projects[k] == t.projects[k])
      && (forall p :: p in ps ==> BuiltFor(t'.projects[p.id].fields, hackathonId))
      && (forall i :: 0 <= i < |ps| && (forall j :: i < j < |ps| ==> ps[j].id != ps[i].id) ==>
            t'.projects[ps[i].id].fields == ProjectPayload(cat, ps[i], hackathonId))
  {
    var (t1, hackathonId) := HackathonUpserted(t, HackathonPayload(cat, ch));
    var ps := ProjectsOf(source, ch.id);
    var records := ProjectPayloads(cat, ps, hackathonId);
    assert t1.projects == t.projects;
    ExternalIdsOfPayloads(cat, ps, hackathonId);
    ProjectsUpsertedKeys(t1, records);
    PayloadBatchRows(cat, t1, ps, hackathonId);
    PayloadBatchLastWins(cat, t1, ps, hackathonId);
  }

  // ---------------------------------------------------------------------------
  // What the whole run does to the tables
  // ---------------------------------------------------------------------------

  /** The ids of the challenges the loop saves. */
  function WantedIds(chs: seq<Challenge>, stored: set<string>): set<string> {
    set ch | ch in chs && Wanted(ch, stored) :: ch.id
  }

  lemma WantedIdsSnoc(chs: seq<Challenge>, ch: Challenge, stored: set<string>)
    ensures WantedIds(chs + [ch], stored)
         == WantedIds(chs, stored) + (if Wanted(ch, stored) then {ch.id} else {})
  {
    var both := chs + [ch];
    forall k | k in WantedIds(both, stored)
      ensures k in WantedIds(chs, stored) + (if Wanted(ch, stored) then {ch.id} else {})
    {
      var c :| c in both && Wanted(c, stored) && c.id == k;
      if c != ch {
        assert c in chs;
      }
    }
  }

  /**
   * Walking a list of challenges keeps the store consistent and adds exactly the ids
   * of the wanted challenges to the hackathon table.
   */
  lemma {:induction false} AfterChallengesKeys(cat: CategoryOf, source: map<string, seq<Project>>, stored: set<string>, t: Tables, chs: seq<Challenge>)
    requires Consistent(t)
    ensures var t' := AfterChallenges(cat, source, stored, t, chs);
      && Consistent(t')
      && t'.hackathons.Keys == t.hackathons.Keys + WantedIds(chs, stored)
  {
    if chs != [] {
      var init, last := chs[..|chs| - 1], chs[|chs| - 1];
      assert chs == init + [last];
      var t1 := AfterChallenges(cat, source, stored, t, init);
      var extra := if Wanted(last, stored) then {last.id} else {};
      AfterChallengesKeys(cat, source, stored, t, init);
      WantedIdsSnoc(init, last, stored);
      assert WantedIds(chs, stored) == WantedIds(init, stored) + extra;
      AfterChallengeKeys(cat, source, stored, t1, last);
      SetUnionAssoc(t.hackathons.Keys, WantedIds(init, stored), extra);
    }
  }

  lemma SetUnionAssoc<T>(a: set<T>, b: set<T>, c: set<T>)
    ensures (a + b) + c == a + (b + c)
  {
  }

  /** The part of `AfterChallengeHackathon` that the walk over the keys needs. */
  lemma AfterChallengeKeys(cat: CategoryOf, source: map<string, seq<Project>>, stored: set<string>, t: Tables, ch: Challenge)
    requires Consistent(t)
    ensures var t' := AfterChallenge(cat, source, stored, t, ch);
      && Consistent(t')
      && t'.hackathons.Keys == t.hackathons.Keys + (if Wanted(ch, stored) then {ch.id} else {})
  {
    AfterChallengeHackathon(cat, source, stored, t, ch);
  }

  /** Walking a list of challenges leaves every hackathon row outside the wanted ids as it was. */
  lemma {:induction false} AfterChallengesUnchanged(cat: CategoryOf, source: map<string, seq<Project>>, stored: set<string>, t: Tables, chs: seq<Challenge>)
    requires Consistent(t)
    ensures var t' := AfterChallenges(cat, source, stored, t, chs);
      forall k :: k in t.hackathons && k !in WantedIds(chs, stored) ==> k in t'.hackathons && t'.hackathons[k] == t.hackathons[k]
  {
    if chs != [] {
      var init, last := chs[..|chs| - 1], chs[|chs| - 1];
      assert chs == init + [last];
      var t1 := AfterChallenges(cat, source, stored, t, init);
      AfterChallengesKeys(cat, source, stored, t, init);
      AfterChallengesUnchanged(cat, source, stored, t, init);
      WantedIdsSnoc(init, last, stored);
      AfterChallengeHackathon(cat, source, stored, t1, last);
    }
  }

  /** Every hackathon a walk saves is left pending (`processed` false). */
  lemma {:induction false} AfterChallengesPending(cat: CategoryOf, source: map<string, seq<Project>>, stored: set<string>, t: Tables, chs: seq<Challenge>)
    requires Consistent(t)
    ensures var t' := AfterChallenges(cat, source, stored, t, chs);
      forall k :: k in WantedIds(chs, stored) ==> k in t'.hackathons && !t'.hackathons[k].fields.processed
  {
    if chs != [] {
      var init, last := chs[..|chs| - 1], chs[|chs| - 1];
      assert chs == init + [last];
      var t1 := AfterChallenges(cat, source, stored, t, init);
      AfterChallengesKeys(cat, source, stored, t, init);
      AfterChallengesPending(cat, source, stored, t, init);
      WantedIdsSnoc(init, last, stored);
      AfterChallengeHackathon(cat, source, stored, t1, last);
      var t' := AfterChallenge(cat, source, stored, t1, last);
      forall k | k in WantedIds(chs, stored) ensures k in t'.hackathons && !t'.hackathons[k].fields.processed {
        if !(Wanted(last, stored) && k == last.id) {
          assert k in WantedIds(init, stored);
          assert k in t1.hackathons && !t1.hackathons[k].fields.processed;
        }
      }
    }
  }

  /** A challenge is on the flattened list exactly when it is on one of the pages. */
  lemma {:induction false} FlattenMembers(pages: seq<seq<Challenge>>, ch: Challenge)
    ensures ch in Flatten(pages) <==> exists p :: 0 <= p < |pages| && ch in pages[p]
  {
    if pages != [] {
      var init := pages[..|pages| - 1];
      FlattenMembers(init, ch);
      if ch in Flatten(pages) && ch !in pages[|pages| - 1] {
        var p :| 0 <= p < |init| && ch in init[p];
        assert ch in pages[p];
      }
      if ch !in Flatten(pages) {
        forall p | 0 <= p < |pages| ensures ch !in pages[p] {
          if p < |init| {
            assert pages[p] == init[p];
          }
        }
      }
    }
  }

  /** The ids of the closed challenges on pages 0 to 19 that were not stored at the start. */
  function ListedIds(listing: seq<seq<Challenge>>, stored: set<string>): set<string> {
    set p, ch | 0 <= p < PAGE_COUNT && p < |listing| && ch in listing[p] && Wanted(ch, stored) :: ch.id
  }

  lemma WantedIdsOfResponses(listing: seq<seq<Challenge>>, stored: set<string>)
    ensures WantedIds(Flatten(Responses(listing)), stored) == ListedIds(listing, stored)
  {
    var responses := Responses(listing);
    var all := Flatten(responses);
    forall k | k in WantedIds(all, stored) ensures k in ListedIds(listing, stored) {
      var ch :| ch in all && Wanted(ch, stored) && ch.id == k;
      FlattenMembers(responses, ch);
      var p :| 0 <= p < |responses| && ch in responses[p];
      assert p < |listing| && ch in listing[p];
    }
    forall k | k in ListedIds(listing, stored) ensures k in WantedIds(all, stored) {
      var p, ch :| 0 <= p < PAGE_COUNT && p < |listing| && ch in listing[p] && Wanted(ch, stored) && ch.id == k;
      assert ch in responses[p];
      FlattenMembers(responses, ch);
    }
  }

  /**
   * `load_all_data` as a whole: the store stays consistent; the hackathon table gains
   * exactly the closed challenges of pages 0 to 19 (an empty page holds nothing but
   * does not stop the walk) whose ids the start-of-run lookup did not return; every
   * saved hackathon is left pending. When the lookup succeeded, no row that was
   * already stored is touched; when it failed, rows outside the listing still are not.
   */
  lemma IngestedSpec(cat: CategoryOf, source: map<string, seq<Project>>, listing: seq<seq<Challenge>>, lookupFailed: bool, t: Tables)
    requires Consistent(t)
    ensures var t' := Ingested(cat, source, listing, lookupFailed, t);
      var added := ListedIds(listing, StoredIds(t, lookupFailed));
      && Consistent(t')
      && t'.hackathons.Keys == t.hackathons.Keys + added
      && (forall k :: k in added ==> !t'.hackathons[k].fields.processed)
      && (forall k :: k in t.hackathons && k !in added ==> t'.hackathons[k] == t.hackathons[k])
      && (!lookupFailed ==> forall k :: k in t.hackathons ==> t'.hackathons[k] == t.hackathons[k])
  {
    var stored := StoredIds(t, lookupFailed);
    WantedIdsOfResponses(listing, stored);
    AfterChallengesKeys(cat, source, stored, t, Flatten(Responses(listing)));
    AfterChallengesUnchanged(cat, source, stored, t, Flatten(Responses(listing)));
    AfterChallengesPending(cat, source, stored, t, Flatten(Responses(listing)));
  }
}
