# Hackathon scraper: a verified model of its crawl-and-persist core

This project models the local logic of the Taikai hackathon scraper in Dafny and
proves properties of the model. It covers five parts:

- **Text normaliser** (`TextNormalizer`, from `clean_text`). It drops every
  character whose Unicode category starts with `S`. Then it turns every run of
  whitespace into one space and strips both ends.
- **Store** (`IdentityStore`). The two tables `hackathons` and `projects` are
  keyed by `external_id`, the conflict key of every upsert. Each row also has an
  internal id, allocated from a counter.
- **Ingest** (`Ingest`, from `load_all_data`). It reads the stored hackathon ids
  once and walks listing pages 0 to 19. It saves every closed challenge that was
  not stored, then upserts one project row per project fetched for it.
- **Detail pass** (`Detail`, from `load_hackathons`). It visits every unprocessed
  hackathon that has a slug. It writes the overview URL and the cleaned scraped
  description, and marks the row processed.
- **Training records** (`FineTuning`). This covers the prompt and completion
  strings `export_to_jsonl` builds, and the label masking inside `tokenize`.

Outside inputs are parameters:

- the Unicode category table, `cat: char -> string`;
- the pages of the listing API, `seq<seq<Challenge>>`. A page answered with a
  status other than 200, or whose body does not parse as the expected JSON, is
  the empty list, as the fetcher returns it;
- the projects returned per challenge, `map<string, seq<Project>>`;
- the scraped description per URL, `string -> Option<string>`;
- the set of internal ids whose update raises;
- the tokenizer's output arrays.

The whitespace class is concrete. It is the set of characters for which
Python's `str.isspace` holds, and that set is both what `\s` matches in a `str`
pattern and what `str.strip()` removes. The only fact the model assumes about
the category table is that the space is not a symbol. That fact is a
precondition of the lemmas that need it (`SpaceIsNotSymbol`).

Each stateful operation is a method on `IdentityStore.Store`, or takes one. Its
`ensures` ties the new tables to a specification function of the old ones:
`HackathonUpserted`, `ProjectsUpserted`, `AfterChallenges`, `Ingested` or
`DetailPass`. The lemmas then prove what those functions promise. All of them
keep the store's invariant `Consistent`, which says:

- every row sits under its own key;
- internal ids are unique and below the counter;
- every project points at a stored hackathon.

Facts about the code that shape the model:

- Each row has one boolean `processed` flag.
- Exactly pages 0 to 19 are requested, and an empty page is skipped.
- One page of projects is fetched per challenge.
- Re-upserting a hackathon sets `processed` back to false.

## Model

| member | source | states |
|---|---|---|
| `TextNormalizer.RemoveSymbolsShape` | main.py:48-54 | the filtered text holds no symbol, and a character occurs in it exactly when it is a non-symbol of the input |
| `TextNormalizer.RemoveSymbolsOfChar` | main.py:49-53 | one character is dropped when its category starts with `S` and kept otherwise |
| `TextNormalizer.RemoveSymbolsAppend` | main.py:48-54 | filtering two texts in a row is filtering each, so with the one-character case every non-symbol of the input is kept once per occurrence, in order, and nothing else |
| `TextNormalizer.FilterSymbols` | main.py:48-54 | the `for ch in text` loop builds exactly the symbol-free text `RemoveSymbols` describes |
| `TextNormalizer.SkipSpacesShape` | main.py:57 | the result is a suffix of the input that does not start with whitespace, and everything skipped is whitespace |
| `TextNormalizer.TrimEndShape` | main.py:57 | the result is a prefix of the input that does not end with whitespace, and everything cut is whitespace |
| `TextNormalizer.CollapseShape` | main.py:56 | the result of `re.sub(r"\s+", " ", ..)` is empty only for empty input, keeps a first character that is not whitespace, has only plain spaces and non-space characters of the input, and never two whitespace characters in a row |
| `TextNormalizer.CollapseRun` | main.py:56 | a maximal run of whitespace, of any length and any whitespace characters, becomes exactly one space between the collapsed text before it and the collapsed text after it |
| `TextNormalizer.CollapseAppend` | main.py:56 | a run never crosses the end of a text that ends in a non-space, so collapsing such a text followed by another is collapsing each |
| `TextNormalizer.StripShape` | main.py:57 | `strip()`: the result is a slice of the input, starting where the leading whitespace ends, with no whitespace at either end |
| `TextNormalizer.Cleaned` | main.py:44-46 | `None` and `""` give `""`; otherwise the result is no longer than the input |
| `TextNormalizer.CleanText` | main.py:44-57 | the function body, with its filtering loop, computes `Cleaned` |
| `TextNormalizer.CleanedKeepsVisible` | main.py:48-57 | the non-space characters of the output are exactly the non-symbol, non-space characters of the input, in their original order |
| `TextNormalizer.CleanedIsNormalized` | main.py:44-57 | every output has no symbol, uses only the plain space as whitespace, never has two spaces in a row and has no whitespace at either end |
| `TextNormalizer.CleanedOfNormalized` | main.py:44-57 | a text already in that shape is returned unchanged |
| `TextNormalizer.CleanedIdempotent` | main.py:44-57 | cleaning a cleaned text gives it back: `clean_text(clean_text(x)) == clean_text(x)` |
| `IdentityStore.HackathonUpsertedSpec` | main.py:236-241 | upserting a hackathon keeps the store consistent, leaves one row under the key holding the payload, and returns its id; an existing row keeps its id, url and description; a new row gets a fresh id and no url or description; other rows and the projects are unchanged |
| `IdentityStore.ProjectUpsertedSpec` | main.py:264-266 | upserting one project row keeps the store consistent, stores the row under its key, keeps the id of an existing row, and changes no other row and no hackathon |
| `IdentityStore.ProjectsUpsertedConsistent` | main.py:263-266 | a batch upsert whose rows point at stored hackathons keeps the store consistent and leaves the hackathon table alone |
| `IdentityStore.ProjectsUpsertedKeys` | main.py:264-266 | a batch adds exactly the keys it names, keeps every existing row's id, and leaves rows outside the batch unchanged |
| `IdentityStore.ProjectsUpsertedFromBatch` | main.py:264-266 | every key the batch names ends up holding one of the batch's rows |
| `IdentityStore.ProjectsUpsertedLastWins` | main.py:264-266 | a row that no later row of the batch overrides is stored as given |
| `IdentityStore.Store.ExistingHackathonIds` | main.py:196-203 | the stored `external_id`s, or the empty set when the query fails |
| `IdentityStore.Store.UpsertHackathon` | main.py:236-241 | the tables and returned id are those of `HackathonUpserted`; the store stays consistent |
| `IdentityStore.Store.UpsertProjects` | main.py:264-266 | the tables become those of `ProjectsUpserted`; the store stays consistent |
| `IdentityStore.Store.SelectPending` | main.py:277-283 | a stored hackathon's `(id, slug, organization_slug)` is selected exactly when its `processed` is false, and everything selected comes from such a row |
| `IdentityStore.Store.UpdateHackathon` | main.py:306-309 | every row with that internal id gets the url, the description and `processed = True`; no other row, no project and no counter changes |
| `Ingest.BuildProjectRecord` | main.py:252-260 | one `project_data` dictionary: external id, the hackathon's id, cleaned title and description, no tags, the project URL, not processed |
| `Ingest.BuildProjectRecords` | main.py:249-261 | one record per fetched project, in order, each with the fetched id, the given hackathon id, cleaned title and description, `tags == []`, `processed == False` and url `https://taikai.network/project/` + id |
| `Ingest.SaveChallenge` | main.py:215-266 | one pass of the challenge loop changes the tables as `AfterChallenge` says |
| `Ingest.SavePage` | main.py:215-266 | the loop over one page changes the tables as `AfterChallenges` over that page says |
| `Ingest.LoadAllData` | main.py:206-213 | the tables end as `Ingested` of the tables at the start, which walks the answers to pages 0 to 19 in order; the store stays consistent |
| `Ingest.AfterChallengeHackathon` | main.py:215-241 | an open challenge, or one whose id was stored at the start, changes nothing; a wanted one leaves one row under its id holding the payload with `processed == False`, keeps the id, url and description of an existing row, gives a new row a fresh id, and changes no other hackathon |
| `Ingest.AfterChallengeProjects` | main.py:241-266 | a wanted challenge adds exactly the fetched project ids; each stored row points at the id the hackathon upsert returned, has no tags, is not processed, and has the project URL; a project not repeated later in the list is stored exactly as built; other projects are unchanged; nothing is written when no project was fetched |
| `Ingest.AfterChallengesKeys` | main.py:215-241 | walking challenges keeps the store consistent and adds exactly the ids of the wanted challenges |
| `Ingest.AfterChallengesUnchanged` | main.py:215-221 | a hackathon row whose id is not among the wanted challenges' ids is left as it was |
| `Ingest.AfterChallengesPending` | main.py:226-240 | every hackathon the walk saves is left with `processed == False` |
| `Ingest.FlattenMembers` | main.py:210-215 | a challenge is walked exactly when it is on one of the pages |
| `Ingest.WantedIdsOfResponses` | main.py:208-221 | the ids saved are the closed challenges of pages 0 to 19 (missing pages count as empty) that were not in the set read at the start |
| `Ingest.IngestedSpec` | main.py:206-267 | the run keeps the store consistent; it adds exactly the closed, not-stored ids of pages 0 to 19, whatever pages are empty, and leaves them pending; it changes no other hackathon row; after a successful lookup, no row that was already stored is touched |
| `Detail.DetailPassSpec` | main.py:285-312 | only rows that were unprocessed, had a slug and whose update did not fail change; they get url `https://taikai.network/<org>/hackathons/<slug>`, the cleaned scraped text (`""` without a description block) and `processed = True`, keeping id and other columns; no row appears or disappears |
| `Detail.DetailPassIdempotent` | main.py:277-312 | a second pass with the same outcomes changes nothing |
| `Detail.DetailPassSettles` | main.py:285-292 | when no update fails, the rows left unprocessed are exactly the unprocessed rows without a slug |
| `Detail.DetailPassNormalized` | main.py:303 | every description the pass writes is in `clean_text`'s normal shape |
| `Detail.DetailPassConsistent` | main.py:306-309 | the pass keeps the store consistent |
| `Detail.LoadHackathons` | main.py:270-312 | visiting the selected rows in any order leaves the hackathon table as `DetailPass` of the old one; projects and counters are untouched; the store stays consistent |
| `FineTuning.BuildPrompt` | fine_tuning.py:61-65 | the `prompt +=` loop computes `Prompt`: it starts with the `Hackathon:/Description:/Projects:` header and ends with the instruction |
| `FineTuning.ProjectLinesAppend` | fine_tuning.py:62-64 | the lines of two project lists in a row are the lines of the first, then those of the second |
| `FineTuning.PromptLineOrder` | fine_tuning.py:61-65 | the line ` - title: description (Tags: t1, t2)` of project `i` sits between the header and the lines of the earlier projects, and the lines of the later projects and the instruction |
| `FineTuning.ProjectLinesBreaks` | fine_tuning.py:62-64 | when no printed value holds a line break, the project lines hold exactly one line break per project |
| `FineTuning.NatToStringDigits` | fine_tuning.py:67 | the printed count is a non-empty string of the digits 0-9 with no leading zero unless the count is zero, as `str(n)` prints it |
| `FineTuning.ParseNatToString` | fine_tuning.py:67 | the printed project count reads back as the count |
| `FineTuning.BuildRecord` | fine_tuning.py:61-67 | the record is the prompt and the completion naming the hackathon and its number of projects |
| `FineTuning.CompletionCount` | fine_tuning.py:67 | two completions for the same name are equal only for equal project counts |
| `FineTuning.MaskLabels` | fine_tuning.py:97-101 | the labels are a new array as long as `input_ids`: `-100` exactly where `prompt_ids` holds a non-pad token, `input_ids[i]` everywhere else; `input_ids` is not modified |
| `FineTuning.MaskedPaddedPrompt` | fine_tuning.py:90-101 | for a prompt of `k` real tokens followed by padding, the labels are `k` times `-100` followed by the input ids from position `k` on |
| `FineTuning.MaskedIdempotent` | fine_tuning.py:97-101 | masking again with the same prompt changes nothing |

## Left out

- The browser and HTML parsing are not modelled. This covers Selenium,
  BeautifulSoup, `wait_for_element`, `extract_project_data` and the DOM lookups
  in `load_hackathons`. The scraped description is the input
  `scrape(url)`, and `None` means the page has no description block.
  `extract_project_data` also calls a `save_project_data` that does not exist.
- The HTTP requests, headers, GraphQL bodies and JSON decoding of the two fetch
  functions are not modelled. Only their outcome is: the list the answer holds,
  or the empty list on a non-200 answer or a parse error.
- Some JSON `null` values raise `TypeError` and abort `load_all_data`. A body
  with `"projects": null` makes the project fetcher return `None` (main.py:190),
  and `for p in projects` then raises (main.py:251). A null `organization`
  raises at main.py:228, and a null `industries` at main.py:224. An industry
  without `title` raises `KeyError` there. The model's project answer is always
  a list (`ProjectsOf` gives `[]` for a challenge with no answer), and its
  challenges always carry an organization and a list of titles, so these aborts
  are not modelled. A `"challenges": null` is harmless: main.py:212 skips it
  like an empty page, as the model does.
- The Supabase client, `.env` loading, `time.sleep`, console output and the
  unused `emoji_pattern` are not modelled. The in-memory `Store` replaces the
  database.
- The Unicode category database is the parameter `cat`.
- A challenge or project missing a required key (`id`, `organization`) raises
  `KeyError` and aborts the run. The model's records always carry those keys.
  Industry titles arrive already extracted.
- A closed challenge whose id is already stored is skipped with a message that
  reads `ch['name']`. Without a `name` key that raises `KeyError` and aborts
  `load_all_data`. The model has no console output, so that case is not
  modelled. On the save path a missing `name` and a null one both give "".
- An exception from `requests.post` in either fetcher, such as a connection
  error or a timeout, is not caught and aborts `load_all_data`. The model's
  pages and project lists always arrive.
- An exception from `driver.get` when navigating to a hackathon page is not
  caught and aborts `load_hackathons`. The model's `scrape` input always
  answers; only a failing `update` is modelled.
- A JSON `null` organization slug would print as `None` in the URL. A null `slug`
  is taken as empty. A null `tags` list would make `", ".join` raise. The model's
  fields are plain strings and lists, so none of these cases arise.
- `Store.UpsertProjects` takes the batch row by row, so the last row with a key
  wins. PostgreSQL rejects a batch that names one key twice, and the model does
  not reproduce that error.
- The id sequence skipping values on conflicting upserts is not modelled.
- A failure of the `select` in `load_hackathons`, or of an upsert in
  `load_all_data`, aborts the run. The model has no such failure. A failing
  `update` is modelled through the set of ids whose update raises: the row stays
  as it was and the loop goes on.
- `LoadHackathons` visits the selected rows as a set, in no fixed order. The
  database returns them in an order the code does not depend on.
- `MaskLabels` requires the prompt to be no longer than the input. Both are
  padded and truncated to 512 tokens, so this holds in the source. A longer
  prompt with a real token past the input's end would raise `IndexError`.
- The tokenizer, the file writing and JSON serialisation of `export_to_jsonl`,
  dataset loading, the model, quantisation, LoRA and `Trainer` are not modelled.
- `insert_pinecone.py`, `interactive.py`, `re_save_adapter.py` and `const.py`
  are not part of this model.
