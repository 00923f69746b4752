# prompt-vault-api, modelled in Dafny

prompt-vault-api stores short text prompts in one relational table. It has
no user accounts. Each record carries an eight-character modification code
that is handed out once, at creation, and must be presented in the
`X-Modification-Code` header to update or delete the record. Seeded
records are read-only: no code opens them.

This project models:

- the `prompts` table (`app/models.py`): the record, its column limits,
  the unique code, the read projection `to_dict`, and the table itself as
  an object whose rows the handlers change (`Models.PromptTable`);
- the handlers of `app/routes.py`: list with title filter and
  `created_at` order, get, random, batch, create, update and delete;
- the older single-file application `app.py`, over the same table, so that
  its differences are explicit: a shorter projection, no length checks of
  its own, and a different check order in update;
- the code generator of `app/utils.py` and the seed loader
  `seed_script.py`.

Python's `str.strip()` is modelled over ASCII whitespace, `str.lower()`
over ASCII letters, and `ILIKE '%x%'` as a case-insensitive substring test
(`PyStr`). Randomness becomes input: the UUIDs a handler would draw are
passed in as a sequence (`Uuid4`). JSON bodies are maps from strings to a
small JSON datatype (`Api`). A handler returns a `Reply` whose status is
200, 201, 204, 400, 403, 404 or 500.

Every handler that writes goes through one commit of `PromptTable`. A
commit is accepted exactly when the resulting rows meet the table's
constraints: rows keyed by their id, an id of at most 36 characters, a
title of at most 150, a username of at most 80, a code of at most 8, and
no code held twice. Otherwise the commit is rolled back and the rows stay
as they were (the one exception, an over-long value whose excess is all
spaces, is listed under "Left out"). Every handler keeps `Valid()`, the statement that the
stored rows meet those constraints.

Two details of the code that a reader might not expect:

- app/routes.py:225-226 would answer `[]` for an empty `ids` list, but the
  check at line 222 already refuses the empty list (it is falsy) with 400,
  so that branch never runs; `Routes.GetPromptsBatch` marks it
  unreachable.
- app.py checks for a request body (line 117) before it checks the
  modification code (line 121), so a missing body with a wrong code is 400
  there and 403 in app/routes.py; `LegacyApp.RefusalOrderDiffers` states
  exactly where the two answers differ.

Module layout: `pystr.dfy` (PyStr), `api.dfy` (Api), `uuid4.dfy` (Uuid4),
`models.dfy` (Models), `rules.dfy` (Rules: the code check and the trimmed
field rule both applications share), `utils.dfy` (Utils), `routes.dfy`
(Routes), `legacy.dfy` (LegacyApp), `seed.dfy` (Seed).

## Model

| member | source | states |
|---|---|---|
| PyStr.Strip | app/routes.py:64-65 | the result is no longer than the input, has no whitespace at either end, and is empty exactly when the input is all whitespace |
| PyStr.StripOfPadded | app/routes.py:64-67 | stripping whitespace + core + whitespace gives back the core, for every core without whitespace at its ends |
| PyStr.StripIdempotent | app/routes.py:126-127 | stripping a stripped string changes nothing, so re-sending a stored title is never a change |
| PyStr.Lower | app/routes.py:25 | lowercasing keeps the length, maps each character by itself, and leaves no ASCII upper-case letter |
| Uuid4.UuidString | app/models.py:9 | str(uuid4()) is 36 characters, hyphens at 8, 13, 18 and 23, lowercase hex elsewhere, and starts with the first 32 bits in hex |
| Models.Codes | app/models.py:14 | the set of codes holds every stored row's code and nothing else |
| Models.RowFits | app/models.py:9-16 | definition: the id fits String(36), the title String(150), a present username String(80) and the code String(8); the NOT NULL columns are non-optional fields of the record |
| Models.CodesUnique | app/models.py:14 | definition: the UNIQUE constraint on modification_code, no two stored rows hold the same code |
| Models.TableConstraints | app/models.py:9-16 | definition: every row is stored under its own id (the primary key), fits its columns, and the codes are unique |
| Models.CodeCount | app/models.py:14 | a table never holds more codes than rows, and the codes are unique exactly when there are as many codes as rows |
| Models.ToDict | app/models.py:18-28 | the projection has exactly the keys id, title, text, username, response, created_at, read_only; never modification_code; created_at is the timestamp or null |
| Models.ToDictForgetsOnlyCode | app/models.py:18-28 | two rows project to the same dict exactly when they differ at most in their modification code |
| Models.AddRowsContents | app/routes.py:90-91 | inserting new rows with fresh distinct keys keeps every old row, stores each new row under its key, adds nothing else, and grows the table by the number of new rows |
| Models.PromptTable.CommitChanges | app/routes.py:157-158 | a commit is accepted exactly when the new rows meet the table constraints; otherwise the rows stay as they were |
| Models.PromptTable.CommitInserts | app/routes.py:90-91 | an insert commit is accepted exactly when the keys are new and the result meets the constraints; otherwise nothing changes |
| Rules.Authorized | app/routes.py:116-117 | definition: the X-Modification-Code header is present, non-empty and equal to the stored code; the same test is app/routes.py:178-179 and app.py:120-121 and 159-160 |
| Rules.HasBody | app/routes.py:120 | definition: a request body counts only when it is a non-empty JSON object; the same test is app.py:117 |
| Rules.AuthorizedOnlyByStoredCode | app/routes.py:116-118 | the header passes exactly when the stored code is non-empty and the header equals it |
| Rules.AccessRefusal | app/routes.py:109-118 | unknown id gives 404, a read-only row 403 whatever header is sent, a stored row with a missing, empty or wrong code 403, and access is granted exactly to a writable row with a matching code |
| Rules.NextTrimmed | app/routes.py:125-137 | an absent field keeps the value, a non-string field is a 500, a string never fails, and the value changes only to a non-empty stripped string different from it |
| Utils.CodeOf | app/utils.py:7 | a code is eight lowercase hex digits, the first 32 bits of the UUID |
| Utils.GenerateModificationCode | app/utils.py:4-10 | the returned code is held by no stored row, every earlier draw was taken, and it fails only when every supplied draw is taken; the number of draws it takes is one past NextFree; the same loop is seed_script.py:45-51 |
| Utils.NextFree | app/utils.py:6-10 | where the retry loop stops when it starts at a given draw: every draw before that point gives a taken code, and the draw there, if any, gives a free one |
| Utils.GenerateFrom | seed_script.py:45-51 | the generator run on the draws left from a position: it fails exactly when NextFree finds no free draw from there, and otherwise returns that draw's code, free, and the position after it |
| Utils.NextFreeOfSuffix | app/utils.py:6-10 | starting the loop on the draws left after d gives the same stopping point, shifted by d, as starting at d on all of them |
| Routes.Keeps | app/routes.py:19 | definition: `ILIKE '%pattern%'` as an ASCII case-insensitive substring test of the title, and `IN` (app/routes.py:231) as membership of the id among the given values |
| Routes.KeepsEdges | app/routes.py:19 | an empty pattern keeps every row, a title matches itself whatever its case, and an empty IN list keeps no row |
| Routes.ScanTable | app/routes.py:35 | the scan returns every stored row the filter keeps exactly once and nothing else |
| Routes.SortByCreated | app/routes.py:27-32 | the result is a permutation of the input, ordered by created_at with null last ascending and first descending |
| Routes.TitleFilter | app/routes.py:16-19 | the title filter applies exactly when filter_title is present and non-empty, with that pattern |
| Routes.Ascending | app/routes.py:25-32 | ascending exactly when the order value lowercases to "asc"; an absent order is descending |
| Routes.AscendingExamples | app/routes.py:25-28 | asc, ASC and aSc sort ascending; desc, ascending and the empty string sort descending |
| Routes.Views | app/routes.py:36 | the reply lists the projection of each row in order, none with a code |
| Routes.GetPrompts | app/routes.py:9-36 | the reply is the projection of a sorted listing of exactly the stored rows whose title contains the filter, ignoring ASCII case |
| Routes.GetPrompt | app/routes.py:44-52 | 200 with the projection exactly when the id is stored, otherwise 404 |
| Routes.GetRandomPrompt | app/routes.py:192-203 | 404 exactly on an empty table, otherwise the projection of some stored row |
| Routes.GetPromptsBatch | app/routes.py:209-238 | a non-JSON body is 400, a non-object body 500, a missing, empty or non-list ids 400, an item that is neither a string nor null 500; otherwise exactly the stored rows whose id is listed, unknown ids ignored |
| Routes.UsernameOf | app/routes.py:66-67 | the stored username is the stripped username, and null exactly when it is absent or all whitespace |
| Routes.ValidateNewPrompt | app/routes.py:61-79 | missing title or text is 400; a non-string title, text or username is 500; empty stripped title or text, a title over 150 or a username over 80 is 400; every other body is accepted, carrying the stripped values within the limits |
| Routes.CreationDict | app/routes.py:92-93 | the creation reply is the projection plus the modification code |
| Routes.AddPrompt | app/routes.py:58-99 | a validation failure is returned unchanged and writes nothing; success adds exactly one writable row with the validated fields, a null response, a code no other row holds, and returns that code; any other outcome is 500 with no change |
| Routes.AddOneRow | app/routes.py:90-91 | one row with a fresh code is insertable exactly when its key is new, and then the commit succeeds exactly when it fits its columns |
| Routes.UpdateTitle | app/routes.py:125-131 | the title changes only to a non-empty stripped string that differs; a change over 150 characters is 400, a non-string title 500, and nothing else fails, so an absent, blank or unchanged title leaves the row as it was; no other field moves |
| Routes.UpdateText | app/routes.py:133-137 | the text changes only to a non-empty stripped string that differs, with no length cap; no other field moves |
| Routes.UpdateResponse | app/routes.py:139-153 | response accepts null or a string, stored stripped, empty allowed; over 10000 characters or any other type is 400; no other field moves |
| Routes.ApplyUpdate | app/routes.py:123-155 | the body succeeds exactly when title, text and response each succeed; failures are reported in the order title, text, response; id, username, code, created_at and read_only never change |
| Routes.UpdateRefusal | app/routes.py:109-121 | the order is 404, read-only 403, code 403, then missing body 400 |
| Routes.ApplyBody | app/routes.py:123-155 | the field-by-field updates give exactly ApplyUpdate, and the updated flag is set exactly when the row changed |
| Routes.ApplyTitle | app/routes.py:124-131 | the title step gives exactly UpdateTitle, and reports a change exactly when the row differs afterwards |
| Routes.ApplyText | app/routes.py:132-137 | the text step gives exactly UpdateText, and reports a change exactly when the row differs afterwards |
| Routes.ApplyResponse | app/routes.py:138-153 | the response step gives exactly UpdateResponse, and reports a change exactly when the row differs afterwards |
| Routes.UpdatePrompt | app/routes.py:102-165 | a refusal or a field failure returns its status and changes nothing; otherwise exactly the row is replaced by ApplyUpdate's result and its projection is returned |
| Routes.ReplaceRowKeepsConstraints | app/routes.py:157-158 | replacing a row by one with the same key and code that fits its columns keeps the table valid |
| Routes.DeletePrompt | app/routes.py:168-189 | the same 404 and 403 gate with no change; otherwise 204 and exactly that row is gone |
| LegacyApp.LegacyToDict | app.py:39-48 | the older projection has exactly id, title, text, created_at and read_only; no code, username or response |
| LegacyApp.LegacyToDictShowsFiveFields | app.py:39-48 | two rows have the same older projection exactly when they agree on those five fields |
| LegacyApp.LegacyGetPrompt | app.py:62-69 | 200 with the older projection exactly when the id is stored, otherwise 404 |
| LegacyApp.LegacyValidate | app.py:74-81 | missing title or text is 400, a non-string one 500, any other failure 400, and success exactly when both are strings that are not all whitespace, carrying them stripped; no length check |
| LegacyApp.LegacyNewCode | app.py:83-86 | the code the retry loop settles on is held by no stored row, every earlier draw was taken, and it fails only when every draw is taken |
| LegacyApp.LegacyAddPrompt | app.py:71-104 | validation failures are returned unchanged; success adds one writable row with null username and response and a fresh code, and returns the code; a title over 150 passes the handler but the commit is refused, giving 500 with no change |
| LegacyApp.LegacyUpdateRefusal | app.py:110-122 | the order is 404, read-only 403, missing body 400, then code 403; it lets through exactly what the shared gate lets through when a body is present |
| LegacyApp.RefusalOrderDiffers | app.py:117-122 | both applications refuse the same update requests, and answer differently only for a wrong code with a missing body: 403 in app/routes.py, 400 in app.py |
| LegacyApp.LegacyApplyUpdate | app.py:124-134 | title and text follow the trimmed-field rule with no length cap and no response field; only a non-string field fails, with 500 |
| LegacyApp.LegacyApplyBody | app.py:124-134 | the field-by-field updates give exactly LegacyApplyUpdate, and the updated flag is set exactly when the row changed |
| LegacyApp.LegacyUpdatePrompt | app.py:107-146 | a refusal or field failure changes nothing; an unchanged row is returned without a commit; a changed row is stored and returned when it fits, otherwise 500 with no change |
| LegacyApp.ReplaceRowFits | app.py:136-143 | a replacement with the same key and code commits exactly when it fits its columns |
| LegacyApp.LegacyDeletePrompt | app.py:149-170 | the shared 404 and 403 gate with no change; otherwise 204 and exactly that row is gone |
| Seed.ReadOnlyTitles | seed_script.py:61 | the starting titles are exactly the titles of the stored read-only rows |
| Seed.SeedPlan | seed_script.py:61-80 | definition: the entries a run inserts, in list order, each one whose title is neither held by a read-only row nor earlier in the list |
| Seed.SeedPlanTitles | seed_script.py:61-80 | the planned titles are exactly the list's titles not already held, and the plan is no longer than the list |
| Seed.SeedPlanDistinct | seed_script.py:64-77 | no planned title is already held and no title is planned twice |
| Seed.SeedPlanFirst | seed_script.py:64-80 | every planned entry is the first entry of the list with its title |
| Seed.SeedPlanEmpty | seed_script.py:61-65 | a run plans nothing exactly when every title of the list is already held |
| Seed.NewSeedRow | seed_script.py:64-74 | a staged row is read-only, carries the entry's title, text and username, the given key and the code of the first free draw from its position on; no row is made exactly when every draw from there is taken; the draws it takes end just past that free draw, so a free draw at its position is used alone |
| Seed.StageSeedRows | seed_script.py:61-80 | the staged rows are the planned entries in order, read-only, with null response, under the given keys and with codes no stored row holds; when there are at least as many draws as entries and none is taken, every planned entry is staged; otherwise staging stops only when every draw after those the staged rows took is taken |
| Seed.StageEntries | seed_script.py:63-80 | the loop over the list from a given set of held titles: the staged rows are that set's plan, in order, each under its key with a free code, and with enough free draws none is missed |
| Seed.StageStep | seed_script.py:64-80 | one pass keeps the loop state: the titles seen, the plan of the prefix, the rows staged for it and the number of draws their generator calls took; it stops only at a planned entry when every draw from its position on is taken |
| Seed.StageNext | seed_script.py:65-77 | one planned entry is appended as a row with the code of the first free draw from its position, and the position moves just past that draw, by one when the draw at the position is free; it fails exactly when every draw from the position is taken |
| Seed.DrawsUsed | seed_script.py:63-66 | how many draws the generator calls for the first n staged rows take, never more than are supplied: each call starts where the previous one stopped and ends just past its free draw |
| Seed.DrawsUsedFree | seed_script.py:63-66 | when no draw is taken, the calls for n rows take exactly n draws |
| Seed.NoFreeDrawLeft | seed_script.py:63-66 | when every draw after those n staged rows took is taken and fewer rows than entries were staged, the draws were not all free |
| Seed.StagedOutcome | seed_script.py:63-80 | from the loop state at either exit: the staged rows are a prefix of the plan, all of it exactly when the loop ran to the end |
| Seed.SeedDatabase | seed_script.py:53-99 | nothing is written unless the run is Seeded; Seeded inserts exactly the staged rows and the count equals their number; NothingToSeed exactly when the plan is empty; OutOfDraws exactly when part of the plan was not staged; a refused commit is rolled back; with enough free draws the run never ends OutOfDraws, and it ends OutOfDraws only when every draw after those the staged rows took is taken |
| Seed.SeededCoversList | seed_script.py:61-83 | after a committed run every title of the list is held by a read-only row, so the same list plans nothing |
| Seed.SeedTwice | seed_script.py:53-86 | after a Seeded first run the table holds exactly the inserted rows added, and a second run with the same list finds nothing to seed and leaves it so |

## Left out

- Flask routing, request parsing, JSON serialisation and the error message texts: only the decoded request fields and the status codes are modelled.
- A missing body (`body == None` in the model) stands for a JSON `null` body, which every handler answers with 400. A request without a JSON content type is not modelled: from Werkzeug 2.1 on, `request.json` raises for it, which the `except Exception` of app/routes.py:161 turns into 500 in update and which create and app.py answer with 415.
- PostgreSQL's `varchar(n)` truncates an over-long value whose extra characters are all spaces instead of refusing it; the model refuses every over-long value, so a seed title or username over its limit that ends in spaces (seed_script.py does not strip them) is stored truncated there but rolled back here.
- A request body that is JSON but not an object, for create and update: such bodies are not representable in the model's request type.
- Routes.GetPrompts: sorting by any column other than created_at (the `sort` argument and `getattr`) and its 400 path are not modelled.
- Routes.Keeps: `ILIKE` wildcards (`%`, `_`) and its escape character (`\`) inside the pattern, and Unicode case folding are not modelled; the filter is an ASCII case-insensitive substring test.
- PyStr.Strip: only ASCII whitespace is stripped; Python also strips Unicode spaces.
- Routes.GetRandomPrompt: the choice is not shown to be uniform; the contract only says some stored row is returned.
- Routes.GetPromptsBatch: the order of the returned rows (the database's) is not modelled; the result is a selection of the stored rows in some order.
- Utils.GenerateModificationCode: the source draws forever; the model takes a finite list of draws and reports failure (500 in the handlers, OutOfDraws in the seed) when it is used up.
- LegacyApp.LegacyNewCode: the same finite-draws substitute for the unbounded retry loop.
- The check-then-insert race on codes between concurrent requests, transaction isolation, and database I/O failures other than constraint violations.
- The rate limiter and CORS, the health-check and index routes, configuration and the application factory.
- The older application's GET /prompts list, which is a plain unfiltered listing.
- Seed.SeedDatabase: reading and decoding the seed file, a missing or malformed entry (a KeyError there rolls back), and engine setup; entries are given already decoded.
- Seed.SeedDatabase: all rows of a run share one created_at value; the column's default (app/models.py:15) is computed in Python by SQLAlchemy for each row as it is flushed, so the real values may differ slightly.
- The primary keys are taken from the supplied UUID draws; their randomness, and a clash between two of them, are left to the commit check.
- Table creation and logging.
