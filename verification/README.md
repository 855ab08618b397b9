# Research assistant — a Dafny model of its core logic

The research assistant is a web product. Users sign up, create research
projects, upload documents to a project and search them by meaning. This
project models the parts of it that hold real logic, and proves properties
of them.

- **Document chunking** (`chunk_text` in `backend/app/services.py`). A
  document's stripped text is cut into windows of at most 1000 characters.
  Each window starts 150 characters before the previous one ended.
- **Embedding replies** (`embed_texts`). The rows of the embedding reply are
  sorted by their `index` field. The call fails unless exactly one vector
  arrives per text.
- **Index rebuild** (`rebuild_project_index`). The chunks of a project's files
  are gathered in file-name order, one record per chunk. A file of an
  unsupported format stops the rebuild with 400. With no chunks the index is
  cleared.
- **Search** (`search_project_chunks`). Only hits that name a real record are
  kept.
- **Project page title** (`formatProjectId` and the catalog lookup in
  `frontend/src/pages/ProjectPage.jsx`). These turn a route id into the
  page's title and description.
- **In-memory authentication** (`backend/app/api/routes/auth.py`). Users are
  kept by email and by bearer token, with a user-id counter. The module models
  signup, login and the current-user check.
- **In-memory project store** (`backend/app/api/routes/projects.py`). An
  id-to-project dictionary with a counter, supporting create, list and delete.
- **Owner-scoped projects** (`backend/app/api/projects.py`). Create, list and
  delete over a table of rows, limited to the caller's own projects.
- **Request validation** (`backend/app/schemas.py`). The length bounds on
  names and passwords.

Each endpoint is a pure function. It takes the store before the request and
returns the store after it, together with the response or the `HttpError`
the endpoint raises. Anything the program gets from outside becomes an
input:

- the embedding service's reply;
- FAISS's search hits;
- the token `secrets.token_urlsafe` returns;
- the id the database assigns;
- whether a token is configured.

Files:

| file | module | contents |
|---|---|---|
| wrappers.dfy | `Wrappers` | `Option`, `Result`, `HttpError`, status codes |
| pytext.dfy | `PyText` | Python's `str.isspace`, `strip`, `startswith`, `removeprefix`, slicing and string ordering |
| sorting.dfy | `Sorting` | a stable insertion sort standing in for `sorted` and `ORDER BY` |
| chunking.dfy | `Chunking` | `chunk_text` |
| project_index.dfy | `ProjectIndex` | `embed_texts`, `rebuild_project_index`, `search_project_chunks` |
| project_page.dfy | `ProjectPage` | `formatProjectId`, the catalog lookup (as written and corrected) |
| auth_store.dfy | `AuthStore` | `routes/auth.py` |
| project_store.dfy | `ProjectStore` | `routes/projects.py` |
| owned_projects.dfy | `OwnedProjects` | `api/projects.py` |
| schemas.dfy | `Schemas` | field bounds of the request models |

## Model

| member | source | states |
|---|---|---|
| PyText.Strip | backend/app/services.py:66 | The result is a contiguous piece of the input. Everything cut off on either side is whitespace, and the result neither starts nor ends with whitespace. It is empty exactly when the input is all whitespace. |
| PyText.RemovePrefix | backend/app/api/routes/auth.py:53 | When the string starts with the prefix, prefix + result gives back the string; otherwise the string is returned unchanged. |
| PyText.Slice | backend/app/services.py:76 | Python's `s[i:j]`: for in-range bounds it is the sub-sequence, and it is empty when `j <= i`. |
| PyText.LexLe | backend/app/services.py:120 | Python's string `<=`: a prefix sorts first, and when the first characters differ, the smaller code point decides. A string that sorts at most an empty string is empty. |
| PyText.LexLeFirstDifference | backend/app/services.py:120 | Python's string `<=` exactly: `a <= b` holds if and only if `a` is a prefix of `b`, or, at the first position where the two differ, `a` has the smaller code point. |
| PyText.LexLeAntisymmetric | backend/app/services.py:120 | Two strings that each sort at most the other are equal. |
| PyText.LexLeTotal | backend/app/services.py:120 | Python's string ordering relates any two strings one way or the other. |
| PyText.LexLeTransitive | backend/app/services.py:120 | Python's string ordering is transitive, so sorting file names by it is well defined. |
| Sorting.SortBy | backend/app/services.py:109 | Sorting keeps the length and is a permutation: the multiset of elements is unchanged. |
| Sorting.SortByStable | backend/app/services.py:109 | Python's `sorted` is stable: for every key, the elements tied with it keep their input order. |
| Sorting.SortByAllTied | backend/app/services.py:109 | When all elements are tied, sorting changes nothing. |
| Sorting.SortBySorted | backend/app/services.py:109 | For any total preorder, the sorted sequence is ordered pairwise. |
| Sorting.SortByMembers | backend/app/api/projects.py:28 | An element is in the sorted sequence exactly when it is in the input. |
| Chunking.ChunkText | backend/app/services.py:65-81 | There are no chunks exactly when the text is empty or all whitespace. |
| Chunking.WindowsFrom | backend/app/services.py:74-79 | The loop visits a window exactly when the start lies before the end of the text, and the first window is [start, min(start+size, n)). |
| Chunking.SliceLoop | backend/app/services.py:70-81 | The loop, with its `break` once a window reaches the end, returns the slices of the stripped text along the windows, in window order. |
| Chunking.ChunkTextLoop | backend/app/services.py:65-81 | `chunk_text` as written (strip, no chunks for empty text, then the loop) returns exactly `ChunkText`: one stripped-text slice per window, where windows are [start, min(start+size, n)) and the next start is max(end-overlap, start+1). |
| Chunking.WindowStartsIncrease | backend/app/services.py:74-79 | Window starts strictly increase and stay inside the text, for every size and overlap. This is why the loop terminates. |
| Chunking.WindowsReachEnd | backend/app/services.py:74-78 | With size >= 1 and overlap >= 0, the last window ends at the end of the text. |
| Chunking.ChunkBounds | backend/app/services.py:74-79 | Every chunk is the stripped-text slice its window names and has 1 to `size` characters. The first chunk starts at 0. With overlap >= 0, the last chunk ends at the end of the stripped text. |
| Chunking.ChunkStartsIncrease | backend/app/services.py:79 | Chunk start offsets strictly increase for every size and overlap. |
| Chunking.ChunkOverlapShared | backend/app/services.py:75-79 | With 0 <= overlap < size, each chunk but the last starts `overlap` characters before the previous one ends. Its first `overlap` characters are the previous chunk's last ones. |
| Chunking.ChunkCoverage | backend/app/services.py:74-79 | With size >= 1 and overlap >= 0, every character of the stripped text appears in some chunk at the matching offset. |
| Chunking.DefaultChunking | backend/app/services.py:12-13 | With the defaults 1000 and 150: chunks have 1 to 1000 characters and span the whole stripped text, and consecutive chunks share 150 characters. |
| Chunking.NegativeOverlapStopsShort | backend/app/services.py:79 | With a negative overlap the chunks can skip text. "abcdefghij" with size 5 and overlap -6 gives only "abcde". |
| ProjectIndex.EmbedTexts | backend/app/services.py:84-115 | No texts means no vectors. Otherwise the call succeeds exactly when: a token is configured, the status is below 400, there are as many rows as texts, and every row has an embedding. Success returns one vector per text. The three failures are 500 "GITHUB_TOKEN is not configured", 502 "Embedding request failed: " + body, and 502 "Embedding response was incomplete". |
| ProjectIndex.AllEmbedded | backend/app/services.py:109-112 | Sorting the reply rows keeps their number, and it keeps whether every row carries an embedding. |
| ProjectIndex.EmbedOrder | backend/app/services.py:109-110 | On success the rows are a permutation of the reply's rows, ordered by `index` (missing = 0). Rows with equal `index` keep their reply order. Vector k is the embedding of the k-th row in that order. |
| ProjectIndex.EmbedUnindexed | backend/app/services.py:109-115 | When no row carries an `index`, vector k is the embedding of reply row k. |
| ProjectIndex.FileLeIsTotalPreorder | backend/app/services.py:120 | Ordering files by name is a total preorder. |
| ProjectIndex.BuildRecords | backend/app/services.py:122-133 | There is one record per chunk of every file, and each record's source is the name of one of the files. |
| ProjectIndex.RecordsLayout | backend/app/services.py:123-133 | The record count is the total chunk count. The record for chunk i of file k sits at that file's offset plus i, and carries the file's name, i and the chunk text. |
| ProjectIndex.RecordSources | backend/app/services.py:129 | Every record's source names one of the files. |
| ProjectIndex.RecordsOrderedBySource | backend/app/services.py:120-133 | When files come in name order, record sources are ordered too. |
| ProjectIndex.BuildRecordsSpec | backend/app/services.py:120-133 | The files are processed in name order, as a permutation of the directory's files. The records are ordered by source, their number is the chunk total, and each chunk is in its place. |
| ProjectIndex.FirstUnsupported | backend/app/services.py:51-62 | Finds the first file `parse_document` refuses, with every earlier file accepted; finds none exactly when every file is accepted. |
| ProjectIndex.FirstRefusedIsFirstByName | backend/app/services.py:120-124 | The refused file that stops the rebuild is an upload, and every upload whose name sorts strictly before it is accepted. |
| ProjectIndex.RecordTexts | backend/app/services.py:144 | Text k sent for embedding is record k's text. |
| ProjectIndex.RebuildIndex | backend/app/services.py:118-154 | A refused file gives 400 "Unsupported file format: " + its suffix, naming a refused upload with no refused name before it, and nothing changes. With every file parsed and no records, the index is gone, the mapping is `[]`, and the count is 0. Otherwise the rebuild succeeds exactly when embedding the record texts does. On success the index holds exactly the embedding's vectors, vector k for record k, the mapping is the records and the count their number. On failure the error is the embedding's error and nothing changes. |
| ProjectIndex.KeptPositions | backend/app/services.py:175-177 | Exactly the positions of hits whose index lies in [0, len(mapping)) are kept, in hit order. |
| ProjectIndex.KeepHits | backend/app/services.py:174-186 | The loop keeps one result per kept position, in hit order; result k copies the score of the k-th kept hit and the source, chunk index and text of the mapping entry it points at. |
| ProjectIndex.SearchChunks | backend/app/services.py:157-172 | A missing index, a missing mapping or an empty mapping gives no results. With an index and a non-empty mapping, the search fails exactly when embedding the query fails, and with the same error. Results never outnumber the hits. |
| ProjectIndex.SearchResultsSpec | backend/app/services.py:174-188 | The results are exactly the in-range hits, in order, each joined with its mapping entry. |
| ProjectIndex.SearchAfterEmptyRebuild | backend/app/services.py:138-142 | After a rebuild that found no chunks, every search returns no results. |
| ProjectPage.Split | frontend/src/pages/ProjectPage.jsx:37 | Splitting on runs of `-`, `_` and whitespace gives at least one part, and no part contains a separator. |
| ProjectPage.SplitInterleave | frontend/src/pages/ProjectPage.jsx:37 | Words separated by non-empty runs of separators split into exactly those words. A trailing run adds one empty piece. |
| ProjectPage.SplitLead | frontend/src/pages/ProjectPage.jsx:37 | A leading run of separators adds one empty piece in front. |
| ProjectPage.Words | frontend/src/pages/ProjectPage.jsx:37-38 | After dropping empty parts, every word is non-empty and free of separators. |
| ProjectPage.WordBoundaries | frontend/src/pages/ProjectPage.jsx:37-38 | The words are cut exactly at the separator runs. For any words, any non-empty runs between them, and any runs before and after, the words of the result are exactly those words. |
| ProjectPage.WordsOfSeparators | frontend/src/pages/ProjectPage.jsx:37-38 | A string of separators only has no words. |
| ProjectPage.WordsKeepCharacters | frontend/src/pages/ProjectPage.jsx:37-38 | The words, concatenated, are exactly the id's non-separator characters in order. |
| ProjectPage.Capitalize | frontend/src/pages/ProjectPage.jsx:39 | Only the first character is upper-cased; the rest are kept. A word stays a word. |
| ProjectPage.CapitalizedWords | frontend/src/pages/ProjectPage.jsx:39 | Capitalized words are still words, and capitalizing twice changes nothing. |
| ProjectPage.JoinWellSpaced | frontend/src/pages/ProjectPage.jsx:40 | Joining words with " " gives single spaces between non-empty words. There is no leading or trailing space, and no `-` or `_`. |
| ProjectPage.SplitJoin | frontend/src/pages/ProjectPage.jsx:37-40 | Splitting a space-joined list of words gives the list back. |
| ProjectPage.WordsOfJoin | frontend/src/pages/ProjectPage.jsx:37-40 | The words of a space-joined list of words are that list. |
| ProjectPage.FormatProjectId | frontend/src/pages/ProjectPage.jsx:35-41 | A missing or empty id gives "". The result is well spaced. Its words are the id's words capitalized, and it is empty exactly when the id has no words. |
| ProjectPage.FormatDemoId | frontend/src/pages/ProjectPage.jsx:35-41 | "market-trends_2026" formats to "Market Trends 2026". |
| ProjectPage.FormatIdempotent | frontend/src/pages/ProjectPage.jsx:35-41 | Formatting an already formatted title changes nothing. |
| ProjectPage.Fallback | frontend/src/pages/ProjectPage.jsx:140-143 | An unknown id gets the placeholder description and a non-empty name: "Untitled Project" when the id has no words, else the id's words capitalized and single-spaced. |
| ProjectPage.ResolveProject | frontend/src/pages/ProjectPage.jsx:137-144 | A catalog id gets its catalog entry. Any other id gets the placeholder description and a non-empty name: "Untitled Project" when the id has no words, else the capitalized words. |
| ProjectPage.CatalogProperty | frontend/src/pages/ProjectPage.jsx:138 | Indexing the catalog object yields its own entry exactly for catalog keys. It is undefined exactly for ids that are neither catalog keys, inherited method names nor `__proto__`. |
| ProjectPage.ResolveProjectAsWritten | frontend/src/pages/ProjectPage.jsx:138-139 | Indexing the plain catalog object gives no description exactly for inherited `Object.prototype` names that are not catalog keys. |
| ProjectPage.AsWrittenAgreesOffPrototype | frontend/src/pages/ProjectPage.jsx:137-144 | For every id other than the inherited names, the lookup as written and the own-key lookup render the same header. |
| ProjectPage.InheritedIdShowsFunctionName | frontend/src/pages/ProjectPage.jsx:138-139 | The id "toString" shows the title "toString" with no description, where the fallback would show "ToString" and the placeholder. |
| AuthStore.IssueToken | backend/app/api/routes/auth.py:43-46 | The new token maps to the user. Every other token keeps its user, and the emails and counter are untouched. |
| AuthStore.BearerToken | backend/app/api/routes/auth.py:53 | The token neither starts nor ends with whitespace. After the "Bearer " prefix, it is the piece of the header with only whitespace around it. |
| AuthStore.CurrentUser | backend/app/api/routes/auth.py:49-58 | A user is returned exactly when the header starts with "Bearer " and its stripped token is known, and it is that token's user. No header or no prefix gives 401 "Not authenticated"; an unknown token gives 401 "Invalid token". |
| AuthStore.Signup | backend/app/api/routes/auth.py:61-72 | A known email gives 400 "User already exists" and changes nothing. Otherwise the user gets the counter as id, the counter goes up by one, the email and the returned token map to the user, and nothing else changes. |
| AuthStore.Login | backend/app/api/routes/auth.py:75-82 | The login fails exactly when the email is unknown or the password differs. Failure is 401 "Invalid credentials" and changes nothing. Success adds the returned token for the stored user and keeps the emails and the counter. |
| AuthStore.ReadMe | backend/app/api/routes/auth.py:85-87 | Succeeds exactly when the current-user check does, and returns that user's id and email; otherwise returns the check's error. |
| AuthStore.InitialValid | backend/app/api/routes/auth.py:38-40 | The empty store with counter 1 satisfies the store invariant. |
| AuthStore.SignupPreservesValid | backend/app/api/routes/auth.py:65-71 | Signup keeps the invariant: users are keyed by their own email, ids are distinct and below the counter, and tokens name registered users. A new user's id exceeds every existing id. |
| AuthStore.LoginPreservesValid | backend/app/api/routes/auth.py:77-81 | Login keeps the store invariant. |
| AuthStore.BearerRoundTrip | backend/app/api/routes/auth.py:50-53 | For a `token_urlsafe(24)` value, "Bearer " + token passes the prefix check and yields exactly that token. |
| AuthStore.SignupThenAuthenticate | backend/app/api/routes/auth.py:61-72 | The token a signup returns authenticates the new user, and `/me` reports the new id and email. |
| AuthStore.LoginKeepsTokens | backend/app/api/routes/auth.py:43-46 | A login's token authenticates the stored user. With a fresh token, every header that authenticated before still gives the same user. |
| AuthStore.ServeIdsIncrease | backend/app/api/routes/auth.py:68-69 | Over any run of signups and logins, the ids of the created users strictly increase and stay between the starting and final counter. The store stays valid. |
| ProjectStore.Put | backend/app/api/routes/projects.py:25 | Dictionary assignment: an existing key keeps its position and takes the new value, and a new key is appended. |
| ProjectStore.Remove | backend/app/api/routes/projects.py:40 | Dictionary deletion: exactly the entries with other keys remain. |
| ProjectStore.Create | backend/app/api/routes/projects.py:20-27 | The project gets the counter as id and the counter goes up by one. In a valid store the project is appended to the listing. |
| ProjectStore.List | backend/app/api/routes/projects.py:30-32 | The listing holds exactly the stored projects. |
| ProjectStore.Delete | backend/app/api/routes/projects.py:35-41 | A missing id gives 404 "Project not found" and leaves the store unchanged. Otherwise the id is gone and the counter is unchanged. The remaining projects are exactly the others. |
| ProjectStore.CreatePreservesValid | backend/app/api/routes/projects.py:24-26 | Create keeps ids increasing in insertion order and below the counter. |
| ProjectStore.RemoveAt | backend/app/api/routes/projects.py:40 | Deleting a key that occurs at position i drops exactly that entry and keeps the others in order. |
| ProjectStore.DeleteRemovesExactly | backend/app/api/routes/projects.py:37-40 | Deleting an existing id succeeds, and the listing loses exactly that entry with the others in order. The store stays valid. |
| ProjectStore.CreateThenDelete | backend/app/api/routes/projects.py:24-40 | Deleting the project just created restores the listing from before. The counter stays advanced, so that id is spent. |
| ProjectStore.IdsNeverReused | backend/app/api/routes/projects.py:17-40 | Over any run of creates and deletes, created ids strictly increase. None equals an id present at the start, so ids are never reused after a delete. |
| OwnedProjects.Create | backend/app/api/projects.py:13-23 | The row carries the payload's name and description, the caller as owner and the assigned id. The table gains exactly that row, and ids stay unique when the id is fresh. |
| OwnedProjects.Owned | backend/app/api/projects.py:28 | A row is kept exactly when it is in the table and owned by the caller. |
| OwnedProjects.List | backend/app/api/projects.py:26-29 | The listing is a permutation of the caller's rows. |
| OwnedProjects.ListSpec | backend/app/api/projects.py:28 | The listing holds exactly the caller's rows, with ids strictly decreasing. |
| OwnedProjects.FindOwned | backend/app/api/projects.py:38 | The lookup finds a row with that id owned by the caller, or reports that none exists. |
| OwnedProjects.Delete | backend/app/api/projects.py:32-43 | The delete gives 404 "Project not found" exactly when no row has that id and is owned by the caller. Otherwise exactly one such row is removed (as a multiset). |
| OwnedProjects.DeleteKeepsOthers | backend/app/api/projects.py:38-43 | A row owned by someone else survives any delete the caller makes. |
| OwnedProjects.CreateThenDelete | backend/app/api/projects.py:19-43 | When the assigned id is fresh, the owner's deleting the project just created succeeds and restores the table's rows. |
| OwnedProjects.CreateThenList | backend/app/api/projects.py:19-29 | A created project appears in its owner's listing and in no other user's. |
| Schemas.SignupErrors | backend/app/schemas.py:6-9 | The name is rejected exactly when its length is outside 2..255, and the password exactly when it is shorter than 8. |
| Schemas.LoginErrors | backend/app/schemas.py:12-14 | A login passes exactly when the password has at least 6 characters. |
| Schemas.ProjectCreateErrors | backend/app/schemas.py:31-33 | A project request passes exactly when the name has 1 to 255 characters. |
| Schemas.SignupPasswordPassesLogin | backend/app/schemas.py:9-14 | Every valid signup password also passes login validation. |
| Schemas.LoginBoundIsWeaker | backend/app/schemas.py:9-14 | A 6-character password passes login validation but fails signup validation. |
| Schemas.DescriptionIrrelevant | backend/app/schemas.py:33 | The optional description never affects validity. |

## Left out

**I/O and external services**

- File handling is not modelled: the upload directory, saving uploads, reading files, PDF extraction and the index/mapping files. An upload is given as its name and what `parse_document` makes of it: the extracted text, or the lower-cased suffix it refuses.
- FAISS and numpy are not modelled. The index is the list of vectors it was built from, and a search's (score, index) pairs are an input. L2 normalisation, float32 conversion and `top_k` are not modelled.
- The embedding HTTP request is not modelled: no URL, headers or timeout. Its status, body and `data` rows are an input, and whether `settings.github_token` is set is a boolean.
- `secrets.token_urlsafe(24)` is an input to signup and login. A token equal to one already issued would overwrite that token's user, as the code does. The lemmas that need a fresh token take freshness as a hypothesis.

**Backend**

- Chunking.ChunkText: the `text or ""` guard is not modelled, because `parse_document` always returns a string.
- ProjectIndex.EmbedTexts: the reply can only be a status, a text body and a list of rows, so four exception paths of `embed_texts` are not modelled. Each raises an unhandled exception, which the web framework answers with a 500 response. The paths: a `requests` timeout or connection error (`backend/app/services.py:103`); a success reply whose body is not JSON (`backend/app/services.py:107`); a JSON array body, or a row that is not an object (`backend/app/services.py:108-110`); and `"data": null` (`backend/app/services.py:109`). A reply with `data` missing is modelled, and gives the 502 "Embedding response was incomplete"; a malformed or null body is not the same input.
- ProjectIndex.EmbedTexts: `index` values are integers or missing. JSON floats, strings or nulls in that field are not modelled; Python's `sorted` would raise on mixed types. As in the code, duplicate or missing indices are not detected.
- ProjectIndex.FileLe: file names are ordered by code point, as `PosixPath` compares them. On Windows, `WindowsPath` compares case-folded names, so "B.txt" sorts after "a.txt" there. That ordering is not modelled.
- ProjectIndex.EmbedTexts: `Settings` in `backend/app/core/config.py:6-15` declares no `github_token` or `github_models_endpoint`, so `embed_texts` would raise `AttributeError` at `backend/app/services.py:88` in this revision. The model assumes a revision where the setting exists, and takes whether it is set as a boolean.
- Concurrency is not modelled. The module-level dictionaries and counters are changed without locks, and requests are applied one at a time.
- The SQLAlchemy session, commit and refresh are not modelled, nor `created_at`. The table is a list of rows whose order carries no meaning. The database-assigned id and the caller's id are inputs.
- `backend/app/api/projects.py` imports `ProjectCreate` and `ProjectRead`, which `schemas.py` does not define. The model uses the fields of `ProjectCreateRequest`.
- Out of scope: the JWT/bcrypt authentication revision (`api/auth.py`, `security.py`, `deps.py`, `dependencies.py`) and the database models.
- Schemas: `EmailStr` format checking is not modelled, and neither are pydantic's error messages. Only the length bounds are.

**Frontend**

- ProjectPage.FormatProjectId: upper-casing covers ASCII letters only. JavaScript's full Unicode `toUpperCase` is not modelled (it can lengthen a string, e.g. "ß" becomes "SS"). Neither are UTF-16 code units: `charAt(0)` splits characters outside the Basic Multilingual Plane, while a Dafny `char` is a whole scalar value.
- React rendering, tabs, mock documents, search results and all other pages are not modelled.

## Findings

| source | as written | input that shows it | evidently intended | confidence | as-written member | corrected member |
|---|---|---|---|---|---|---|
| frontend/src/pages/ProjectPage.jsx:138-139 | `projectCatalog[projectId]` reads inherited `Object.prototype` properties. For ids like "toString", "constructor" or "__proto__" the value is truthy, so it is taken as the project: the title becomes a function name ("Object" for "constructor") or is missing, and there is no description. | route `/projects/toString`: the title is "toString" with no description | only the catalog's own keys count; other ids get the formatted title ("ToString") and the placeholder description | not executed | ProjectPage.ResolveProjectAsWritten, ProjectPage.InheritedIdShowsFunctionName | ProjectPage.ResolveProject |
