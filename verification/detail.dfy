/**
 * `load_hackathons` of main.py: select every hackathon row that is not processed,
 * skip the ones without a slug, open the overview page of each other one, and write
 * back its url, the cleaned description and `processed = True`.
 *
 * The browser is given as its outcome: `scrape(url)` is the text of the page's
 * `html-editor-body` block, or `None` when the page has none. An update that raises
 * is reported and swallowed; `failing` holds the internal ids whose update raised.
 */
module Detail {
  import opened Wrappers
  import opened TextNormalizer
  import opened IdentityStore

  const BASE_URL := "https://taikai.network"

  /** The overview page of a hackathon. */
  function OverviewUrl(organizationSlug: string, slug: string): string {
    BASE_URL + "/" + organizationSlug + "/hackathons/" + slug
  }

  /** A row the pass writes to: selected (not processed) and with a slug. */
  predicate Detailable(row: HackathonRow) {
    !row.fields.processed && row.fields.slug != ""
  }

  /** One row after the pass. */
  function Detailed(cat: CategoryOf, scrape: string -> Option<string>, failing: set<nat>, row: HackathonRow): HackathonRow {
    if Detailable(row) && row.id !in failing then
      var url := OverviewUrl(row.fields.organizationSlug, row.fields.slug);
      Marked(row, url, Cleaned(cat, scrape(url)))
    else row
  }

  /** The hackathon table after the pass. */
  function DetailPass(cat: CategoryOf, scrape: string -> Option<string>, failing: set<nat>, rows: map<string, HackathonRow>): map<string, HackathonRow> {
    map k | k in rows :: Detailed(cat, scrape, failing, rows[k])
  }

  // ---------------------------------------------------------------------------
  // What the pass promises
  // ---------------------------------------------------------------------------

  /**
   * The pass writes only rows that were unprocessed and had a slug, and whose update
   * did not fail. Such a row gets the overview url, the cleaned scraped text (""
   * when the page has no description block) and `processed`; its id and every other
   * column stay. Every other row is unchanged, and no row appears or disappears.
   */
  lemma DetailPassSpec(cat: CategoryOf, scrape: string -> Option<string>, failing: set<nat>, rows: map<string, HackathonRow>)
    ensures var r := DetailPass(cat, scrape, failing, rows);
      && r.Keys == rows.Keys
      && (forall k :: k in rows && Detailable(rows[k]) && rows[k].id !in failing ==>
            var url := OverviewUrl(rows[k].fields.organizationSlug, rows[k].fields.slug);
            && r[k].id == rows[k].id
            && r[k].fields == rows[k].fields.(processed := true)
            && r[k].url == Some(url)
            && r[k].description == Some(Cleaned(cat, scrape(url)))
            && (scrape(url).None? ==> r[k].description == Some("")))
      && (forall k :: k in rows && !(Detailable(rows[k]) && rows[k].id !in failing) ==> r[k] == rows[k])
  {
  }

  /** Running the pass again with the same outcomes changes nothing more. */
  lemma DetailPassIdempotent(cat: CategoryOf, scrape: string -> Option<string>, failing: set<nat>, rows: map<string, HackathonRow>)
    ensures DetailPass(cat, scrape, failing, DetailPass(cat, scrape, failing, rows)) == DetailPass(cat, scrape, failing, rows)
  {
    var r := DetailPass(cat, scrape, failing, rows);
    forall k | k in r ensures Detailed(cat, scrape, failing, r[k]) == r[k] {
      if Detailable(rows[k]) && rows[k].id !in failing {
        assert r[k].fields.processed;
      }
    }
  }

  /** When no update fails, the rows still pending afterwards are exactly those without a slug. */
  lemma DetailPassSettles(cat: CategoryOf, scrape: string -> Option<string>, rows: map<string, HackathonRow>)
    ensures var r := DetailPass(cat, scrape, {}, rows);
      forall k :: k in r ==> (!r[k].fields.processed <==> !rows[k].fields.processed && rows[k].fields.slug == "")
  {
    var r := DetailPass(cat, scrape, {}, rows);
    forall k | k in r ensures !r[k].fields.processed <==> !rows[k].fields.processed && rows[k].fields.slug == "" {
      if Detailable(rows[k]) {
        assert r[k].fields.processed;
      }
    }
  }

  /** Every description the pass writes is in the shape `clean_text` promises. */
  lemma DetailPassNormalized(cat: CategoryOf, scrape: string -> Option<string>, failing: set<nat>, rows: map<string, HackathonRow>)
    requires SpaceIsNotSymbol(cat)
    ensures var r := DetailPass(cat, scrape, failing, rows);
      forall k :: k in rows && Detailable(rows[k]) && rows[k].id !in failing ==>
        r[k].description.Some? && Normalized(cat, r[k].description.value)
  {
    forall k | k in rows && Detailable(rows[k]) && rows[k].id !in failing
      ensures Normalized(cat, Cleaned(cat, scrape(OverviewUrl(rows[k].fields.organizationSlug, rows[k].fields.slug))))
    {
      CleanedIsNormalized(cat, scrape(OverviewUrl(rows[k].fields.organizationSlug, rows[k].fields.slug)));
    }
  }

  /** The pass keeps the store consistent: keys, internal ids and the projects' links stay. */
  lemma DetailPassConsistent(cat: CategoryOf, scrape: string -> Option<string>, failing: set<nat>, t: Tables)
    requires Consistent(t)
    ensures Consistent(t.(hackathons := DetailPass(cat, scrape, failing, t.hackathons)))
  {
    var t' := t.(hackathons := DetailPass(cat, scrape, failing, t.hackathons));
    assert forall k :: k in t.hackathons ==> t'.hackathons[k].id == t.hackathons[k].id;
    assert HackathonIds(t') == HackathonIds(t) by {
      forall x | x in HackathonIds(t) ensures x in HackathonIds(t') {
        var j :| j in t.hackathons && t.hackathons[j].id == x;
        assert t'.hackathons[j].id == x;
      }
    }
  }

  // ---------------------------------------------------------------------------
  // The loop
  // ---------------------------------------------------------------------------

  /**
   * The loop's invariant: every row whose selection is still to be visited is as it
   * was, every other row is as the pass leaves it.
   */
  ghost predicate Progress(cat: CategoryOf, scrape: string -> Option<string>, failing: set<nat>,
                           rows0: map<string, HackathonRow>, todo: set<PendingRow>, current: map<string, HackathonRow>)
  {
    && current.Keys == rows0.Keys
    && forall k :: k in rows0 ==>
         current[k] == if Selected(rows0[k]) in todo then rows0[k] else Detailed(cat, scrape, failing, rows0[k])
  }

  lemma ProgressStart(cat: CategoryOf, scrape: string -> Option<string>, failing: set<nat>, rows0: map<string, HackathonRow>)
    ensures Progress(cat, scrape, failing, rows0, PendingRows(rows0), rows0)
  {
    forall k | k in rows0 && Selected(rows0[k]) !in PendingRows(rows0)
      ensures rows0[k].fields.processed
    {
    }
  }

  lemma ProgressDone(cat: CategoryOf, scrape: string -> Option<string>, failing: set<nat>,
                     rows0: map<string, HackathonRow>, current: map<string, HackathonRow>)
    requires Progress(cat, scrape, failing, rows0, {}, current)
    ensures current == DetailPass(cat, scrape, failing, rows0)
  {
  }

  /** Visiting a selection that is skipped, or whose update fails, changes no row. */
  lemma ProgressSkip(cat: CategoryOf, scrape: string -> Option<string>, failing: set<nat>,
                     rows0: map<string, HackathonRow>, todo: set<PendingRow>, current: map<string, HackathonRow>, h: PendingRow)
    requires Progress(cat, scrape, failing, rows0, todo, current)
    requires h in todo && (h.slug == "" || h.id in failing)
    ensures Progress(cat, scrape, failing, rows0, todo - {h}, current)
  {
  }

  /** Visiting a selection and updating its id marks exactly the row it was selected from. */
  lemma ProgressMark(cat: CategoryOf, scrape: string -> Option<string>, failing: set<nat>,
                     rows0: map<string, HackathonRow>, todo: set<PendingRow>, current: map<string, HackathonRow>, h: PendingRow)
    requires DistinctIds(rows0)
    requires Progress(cat, scrape, failing, rows0, todo, current)
    requires h in todo && h in PendingRows(rows0) && h.slug != "" && h.id !in failing
    ensures var url := OverviewUrl(h.organizationSlug, h.slug);
      Progress(cat, scrape, failing, rows0, todo - {h}, UpdatedById(current, h.id, url, Cleaned(cat, scrape(url))))
  {
    var url := OverviewUrl(h.organizationSlug, h.slug);
    var next := UpdatedById(current, h.id, url, Cleaned(cat, scrape(url)));
    var j :| j in rows0 && !rows0[j].fields.processed && Selected(rows0[j]) == h;
    forall k | k in rows0
      ensures next[k] == if Selected(rows0[k]) in todo - {h} then rows0[k] else Detailed(cat, scrape, failing, rows0[k])
    {
      assert current[k].id == rows0[k].id;
      if rows0[k].id == h.id {
        assert k == j;
      }
    }
  }

  /**
   * `load_hackathons`: the hackathon table ends as `DetailPass` of what it was, the
   * projects and both id counters are untouched.
   */
  method LoadHackathons(store: Store, cat: CategoryOf, scrape: string -> Option<string>, failing: set<nat>)
    requires store.Valid()
    modifies store
    ensures store.Valid()
    ensures store.hackathons == DetailPass(cat, scrape, failing, old(store.hackathons))
    ensures store.projects == old(store.projects)
    ensures store.nextHackathonId == old(store.nextHackathonId) && store.nextProjectId == old(store.nextProjectId)
  {
    ghost var rows0 := store.hackathons;
    assert DistinctIds(rows0);
    var hackathons := store.SelectPending();
    ProgressStart(cat, scrape, failing, rows0);
    var todo := hackathons;
    while todo != {}
      invariant store.Valid()
      invariant store.projects == old(store.projects)
      invariant store.nextHackathonId == old(store.nextHackathonId) && store.nextProjectId == old(store.nextProjectId)
      invariant todo <= hackathons
      invariant Progress(cat, scrape, failing, rows0, todo, store.hackathons)
      decreases |todo|
    {
      var h :| h in todo;
      if h.slug == "" {
        ProgressSkip(cat, scrape, failing, rows0, todo, store.hackathons, h);
        todo := todo - {h};
        continue;
      }
      var hackathonUrl := BASE_URL + "/" + h.organizationSlug + "/hackathons/" + h.slug;
      var description := CleanText(cat, scrape(hackathonUrl));
      if h.id !in failing {
        ProgressMark(cat, scrape, failing, rows0, todo, store.hackathons, h);
        store.UpdateHackathon(h.id, hackathonUrl, description);
      } else {
        ProgressSkip(cat, scrape, failing, rows0, todo, store.hackathons, h);
      }
      todo := todo - {h};
    }
    ProgressDone(cat, scrape, failing, rows0, store.hackathons);
  }
}
