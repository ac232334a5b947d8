# ONGC RAG assistant backend — a verified Dafny model

This project models the logic of the ONGC RAG assistant's FastAPI backend and proves properties of it. It covers three parts:

- **Chunking and keyword retrieval** (`backend/rag_service.py`):
  - `DocumentProcessor.chunk_text` cuts a text into overlapping windows. It prefers to end a window just after a sentence end or a newline found near the window's nominal end.
  - `RAGService._extract_relevant_snippet` picks the paragraph with the most query-word hits as a document's snippet.
  - `RAGService.retrieve_relevant_context` keeps the user's completed documents whose text contains a query word. It builds their source entries and a length-limited context text.
- **Request handlers** (`backend/main.py`) over an in-memory store of the `users`, `documents` and `chats` tables plus the upload directory:
  - signup and login;
  - sending a chat message (new-chat title, two stored messages);
  - upload validation, download versus delete rights;
  - admin user updates and password changes;
  - the mock reply generator.
- **Authorization** (`backend/auth.py`):
  - the access-token payload with its `exp` claim (section 4.1.4 of RFC 7519);
  - reading the `sub` claim back (section 4.1.2 of RFC 7519);
  - the dependency chain: the user exists, then is active, then is an admin.

Files:

| file | module | contents |
|---|---|---|
| `wrappers.dfy` | `Wrappers` | `Option`, `Result` |
| `text.dfy` | `Text` | the Python string built-ins used: `strip`, `lower`, `split()`, `split(sep)`, `join`, `in`, clamped slicing, the "cut and add `...`" expression, `str(int)` |
| `chunking.dfy` | `Chunking` | `chunk_text` as a method, proved equal to the `Chunks` / `Windows` specification, plus window lemmas |
| `retrieval.dfy` | `Retrieval` | snippet choice and context retrieval as methods, proved equal to specification functions, plus lemmas |
| `models.dfy` | `Models` | table rows, the abstract bcrypt hash, HTTP errors, `.first()`, SQLite row ids |
| `auth.dfy` | `Auth` | token creation and decoding, `get_current_user`, `get_current_admin_user` |
| `api.dfy` | `Api` | the handlers: the `Store` class for those that write, functions for those that only read |

Modelling choices:

- **Handlers.** A handler that writes to the database is a method of `Store`. Its `modifies this` covers the tables. Its postcondition gives the complete new state and keeps the invariant `Valid`:
  - ids are positive and unique;
  - usernames and emails are unique;
  - every document and chat has an existing owner.
- **Loops.** `chunk_text`, `_extract_relevant_snippet` and `retrieve_relevant_context` are methods with loops, each proved equal to a recursive specification function. The lemmas are stated about those functions.
- **Inputs.** The documents and their extracted texts, the caller produced by the authentication dependency, the current time, the secret key, the bcrypt salt and the random pick of the mock reply's opening are all parameters.
- **`Valid` and the table lemmas.** `Store.Valid` is `TablesValid` applied to the three tables, so the lemmas `SignupKeepsValid`, `AddChatKeepsValid` and the others state, on table values, the invariant each handler keeps.
- **Upload status.** An uploaded document's status is `completed`, because `upload_document` sets it directly. No background step moves it from `processing`.
- **Replies.** `send_message` stores the mock reply of `generate_ai_response`. The external LLM clients are not called by the modelled handlers.

## Model

| member | source | states |
|---|---|---|
| Text.StripSpec | backend/rag_service.py:85 | `strip()` keeps a contiguous part of the input, removes only whitespace, leaves none at either end, and yields "" exactly for all-whitespace input |
| Text.StripIdempotent | backend/rag_service.py:85 | stripping an already stripped text changes nothing |
| Text.Contains | backend/rag_service.py:177 | `needle in hay` holds exactly when the needle occurs at some index |
| Text.IndexOf | backend/rag_service.py:213 | the first occurrence of a separator, or none exactly when it does not occur |
| Text.SplitOn | backend/rag_service.py:213 | `split(sep)` gives at least one piece and no piece contains the separator |
| Text.SplitOnSome | backend/rag_service.py:213 | when the separator occurs, `split(sep)` cuts at its first occurrence: the first piece is the text before it, followed by the pieces of the text after it |
| Text.JoinSplit | backend/rag_service.py:213 | joining the pieces of `split(sep)` with `sep` gives the text back |
| Text.OccurrenceInSomePiece | backend/rag_service.py:213-219 | a word sharing no character with the separator that occurs in a text occurs in one of its pieces |
| Text.SplitOnLower | backend/rag_service.py:213-218 | splitting on a separator without letters commutes with lower-casing |
| Text.IndexOfLower | backend/rag_service.py:213-218 | lower-casing does not move the first occurrence of a letter-free separator |
| Text.OccursAtLower | backend/rag_service.py:218 | lower-casing keeps exactly the occurrences of a letter-free string |
| Text.WordsCut | backend/rag_service.py:161 | the text is its `split()` words separated by whitespace gaps, non-empty between two words: the words are the text's non-whitespace runs, in order |
| Text.WordsUnique | backend/rag_service.py:161 | any cut of a text into whitespace gaps and non-empty whitespace-free words, with non-empty gaps between words, has exactly the `split()` words |
| Text.Lower | backend/rag_service.py:160 | `lower()` keeps the length and maps each character on its own |
| Text.PySlice | backend/rag_service.py:85 | `s[a:b]` is the in-range slice, clamped at the end of the text, empty when it starts at or past the end |
| Text.Truncate | backend/main.py:133 | a string longer than n becomes its first n characters followed by `...` (n + 3 in all); a shorter one is unchanged |
| Text.NatToString | backend/rag_service.py:187 | `str(n)` of a natural number is a non-empty string of decimal digits that denotes `n`, with no leading zero except in "0" |
| Text.IntToString | backend/rag_service.py:187 | `str(id)` is a minus sign exactly for a negative id, followed by the digits of its magnitude without a leading zero |
| Chunking.LastBoundary | backend/rag_service.py:80-83 | the backward scan returns an index inside the scanned range |
| Chunking.LastBoundarySpec | backend/rag_service.py:80-83 | the scan finds the highest `.`, `!`, `?` or newline in the range, and finds nothing only when there is none |
| Chunking.WindowEnd | backend/rag_service.py:75-83 | a window ends at most at `start + chunk_size + 1`, inside the text when it was scanned, and not below the scan floor |
| Chunking.WindowEndSpec | backend/rag_service.py:75-83 | a window reaching the text end is not shortened; otherwise it ends right after the highest boundary character above `max(start+chunk_size-200, start)`, or at the nominal end when there is none |
| Chunking.NextStartAdvances | backend/rag_service.py:89 | under the termination condition each next start is beyond the current one |
| Chunking.FindWindowEnd | backend/rag_service.py:75-83 | the scan loop computes `WindowEnd` |
| Chunking.ChunkText | backend/rag_service.py:65-93 | the loop returns exactly `Chunks`, the stripped non-empty windows in order |
| Chunking.ChunksFromWindows | backend/rag_service.py:74-91 | the chunks are the windows' stripped texts in window order, empty ones dropped |
| Chunking.WindowsFromPlacement | backend/rag_service.py:71-91 | windows from a start: first at that start, each next at the previous end minus the overlap, all starts inside the text, the sequence stopping when the next start is at or past the end |
| Chunking.WindowsPlacement | backend/rag_service.py:67-91 | the empty text has no window; otherwise the first starts at 0, starts increase, a window holds at most `chunk_size + 1` characters, and a scanned window ends inside the text |
| Chunking.TrailingWindowInside | backend/rag_service.py:89-91 | after a window that reaches the text end, the next window starts inside it and its text is a suffix of it |
| Chunking.DefaultsShortText | backend/rag_service.py:16-17 | with 1000/200, a text of 1 to 800 characters is one window and at most one chunk |
| Chunking.DefaultsRepeatedTail | backend/rag_service.py:16-17 | with 1000/200, a text of 801 to 1000 characters gives the windows (0,1000) and (800,1800), so its tail from index 800 is chunked twice |
| Chunking.OverlapAtBoundStalls | backend/rag_service.py:80-89 | with an overlap of `chunk_size - 198` or more, a boundary at `chunk_size - 199` sends the next start back to 0 or below: the loop does not advance |
| Chunking.CollectMembers | backend/rag_service.py:85-87 | a collected chunk is non-empty and is some window's stripped text, and every non-empty stripped window text is collected |
| Chunking.ChunksAreWindowTexts | backend/rag_service.py:67-87 | `chunk_text` returns [] for "", and otherwise exactly the non-empty `text[start:end].strip()` of its windows |
| Retrieval.Keywords | backend/rag_service.py:160-161 | the query words are non-empty and hold no newline |
| Retrieval.MatchCount | backend/rag_service.py:177 | the hit count is at most the number of keywords and positive exactly when some keyword occurs |
| Retrieval.MatchCountIsCount | backend/rag_service.py:177 | the hit count is exactly the number of keyword positions (repeats counted) whose keyword occurs in the text |
| Retrieval.BestParagraphSpec | backend/rag_service.py:213-223 | the loop keeps the highest score; when positive, the best paragraph is the earliest with that score; when zero, none was chosen |
| Retrieval.Snippet | backend/rag_service.py:225-233 | a snippet has at most 503 characters |
| Retrieval.SnippetFallback | backend/rag_service.py:213-233 | when no paragraph contains a keyword, the snippet is the text's first 500 characters, plus `...` only when the text is longer |
| Retrieval.SnippetBest | backend/rag_service.py:213-230 | the snippet comes from the earliest paragraph with the highest positive score: stripped, and cut to 500 characters plus `...` when longer |
| Retrieval.MatchedTextHasBestParagraph | backend/rag_service.py:177-230 | a document whose text contains a query word always takes its snippet from a best paragraph, never from the fallback |
| Retrieval.ExtractRelevantSnippet | backend/rag_service.py:209-233 | the paragraph loop returns `Snippet` |
| Retrieval.RelevantDocsMembers | backend/rag_service.py:163-179 | a document is kept exactly when it is an input with non-empty text containing a query word |
| Retrieval.RelevantDocsAppend | backend/rag_service.py:163-190 | filtering keeps document order |
| Retrieval.GatherSpec | backend/rag_service.py:157-190 | the context parts and sources are, position by position, those of the kept documents |
| Retrieval.SourcesOfRetrieval | backend/rag_service.py:183-188 | each source is titled `ONGC Document: <name>`, links to `/docs/<id>/download` and carries its snippet; every relevant document yields one and no other does |
| Retrieval.RetrieveContext | backend/rag_service.py:152-153 | no documents give ("", []); the context never exceeds `max_context_length + 3` characters |
| Retrieval.ContextOfRetrieval | backend/rag_service.py:196-199 | the context is the parts joined by a blank line when that fits, and otherwise its first `max_context_length` characters plus `...` |
| Retrieval.RetrieveRelevantContext | backend/rag_service.py:135-203 | the document loop returns `RetrieveContext` |
| Models.HashPassword | backend/auth.py:35-38 | a fresh hash verifies against the password it was made from |
| Models.VerifyOnlyOwnPassword | backend/auth.py:30-33 | a hash accepts exactly its own password |
| Models.FirstWhere | backend/main.py:57-59 | `.first()` returns a matching row, the earliest in table order, and none only when no row matches |
| Models.NextId | backend/models.py:9 | a new row id is positive and above every existing id: 1 for an empty table, and one more than the largest when ids are positive |
| Auth.Expiry | backend/auth.py:44-47 | `exp` is `now + delta` for a non-zero delta, and otherwise `now` + 30 minutes, including for a zero delta |
| Auth.CreateAccessToken | backend/auth.py:40-53 | the payload is the input claims plus `exp` (an input `exp` is replaced), signed with the secret key |
| Auth.JwtDecode | backend/auth.py:59 | a token decodes exactly when it was signed with the key, its `exp`, if present, is a number that has not passed, and its `sub`, if present, is a string; the decoded claims are the token's |
| Auth.DecodeAccessToken | backend/auth.py:58-75 | the subject is returned exactly when the token verifies and carries `sub`; every failure is 401 |
| Auth.DecodeAccessTokenAsWritten | backend/auth.py:69-70 | as written, a token that fails verification ends in a 500 |
| Auth.DecodeAsWrittenDiffers | backend/auth.py:58-75 | the written and the intended decoding agree on verified tokens and differ on every other one |
| Auth.TokenRoundTrip | backend/auth.py:40-68 | a token made for a subject decodes to it with the same key until expiry, and not after expiry or under another key |
| Auth.FindByUsername | backend/auth.py:87 | the lookup returns the first user with that username, or none only when there is none |
| Auth.CurrentUserFrom | backend/auth.py:87-105 | after decoding, an authenticated user is an existing, active user |
| Auth.GetCurrentUser | backend/auth.py:77-105 | with the corrected decoding, an authenticated user is an existing, active user |
| Auth.GetCurrentUserAsWritten | backend/auth.py:77-105 | as written, an authenticated user is an existing, active user |
| Auth.GetCurrentUserAsWrittenDiffers | backend/auth.py:69-84 | the written and the corrected `get_current_user` agree on tokens that verify; on any other token the written one answers 500 and the corrected one 401 |
| Auth.GetCurrentUserOrder | backend/auth.py:84-105 | with the corrected decoding, the token check comes first (401), then 401 for no user, then 400 for an inactive user, else that user |
| Auth.GetCurrentAdminUser | backend/auth.py:107-117 | 403 for a non-admin; an admin is returned unchanged; earlier errors pass through |
| Auth.FreshTokenAuthenticates | backend/auth.py:77-117 | an active user with a fresh token for their username passes the chain, and the admin check exactly when admin |
| Api.GenerateAiResponse | backend/main.py:522-549 | the reply is one of the four openings followed by the suffix quoting the message; exactly one source when "safety" occurs in the lower-cased message, else none |
| Api.Exchange | backend/main.py:145-162 | the stored messages are the user's message then the reply, in that order |
| Api.ValidateUpload | backend/main.py:229-236 | an upload passes exactly when its type is one of the three allowed and its size is at most 50 MiB; a bad type is rejected first; every rejection is 400 |
| Api.UploadSizeBoundary | backend/main.py:235 | exactly 52,428,800 bytes is accepted and one byte more is rejected |
| Api.Login | backend/main.py:94-119 | 401 when no user matches the name; for the user the lookup finds, the session with a token for its username exactly when its hash accepts the password, and 401 otherwise; a success's token decodes to that username |
| Api.Download | backend/main.py:309-331 | a download returns a document with that id whose file exists, owned by the caller unless the caller is admin; every failure is 404 |
| Api.SignupThenLogin | backend/main.py:54-119 | right after signup, provided no older user has the new username as email, logging in with the username and password gives the new user and its token, and with another password 401; with the email likewise (success, and 401 for another password), provided no older user has it as username |
| Api.FirstMatchIsNew | backend/main.py:97-99 | when no earlier user has the name as username or email, the login lookup finds the user appended after them |
| Api.LoginConsultsOneUser | backend/main.py:97-105 | whichever matching row the lookup returns, login checks the password of one matching user only: that user's hash decides every password and a success is that user's session; with no match every password is refused |
| Api.DownloadAndDeleteAccess | backend/main.py:315-341 | download succeeds exactly for an admin or the owner when the file exists; delete finds a document exactly when the caller owns it |
| Api.AdminDownloadsButCannotDelete | backend/main.py:315-341 | an admin can download another user's document but deleting it gives 404 |
| Api.UpdateConflicts | backend/main.py:381-391 | keeping one's own username and email is allowed; taking another user's username or email is a conflict |
| Api.SignupKeepsValid | backend/main.py:56-78 | adding a user with a fresh id, username and email keeps the store invariant |
| Api.ReplaceUserKeepsValid | backend/main.py:393-397 | updating a user without taking another's username or email keeps the invariant |
| Api.AddChatKeepsValid | backend/main.py:130-139 | adding the caller's new chat keeps the invariant |
| Api.SetMessagesKeepsValid | backend/main.py:145-164 | appending messages to a chat keeps the invariant |
| Api.AddDocumentKeepsValid | backend/main.py:249-260 | adding the caller's new document keeps the invariant |
| Api.RemoveDocumentKeepsValid | backend/main.py:347-349 | removing a document keeps the invariant |
| Api.Store.Signup | backend/main.py:54-92 | 400 with no change when the email or username is taken; otherwise one new active user with role `user`, the next id and a hash of the password, plus a token for it |
| Api.Store.SendMessage | backend/main.py:122-170 | without a chat id (or with 0), a new chat of the caller titled with the message cut to 50 characters, holding the message and the reply; with an id, the caller's chat gets the two messages, or 404 with nothing stored |
| Api.Store.UploadDocument | backend/main.py:223-271 | a rejected upload changes nothing; an accepted one adds one `completed` document owned by the caller and its file |
| Api.Store.DeleteDocument | backend/main.py:333-351 | only the caller's own document is removed, with its file; otherwise 404 and nothing changes |
| Api.Store.UpdateUser | backend/main.py:370-408 | 404 for an unknown id, then 400 on a conflict, otherwise only that user's username, email and role change |
| Api.Store.ChangeUserPassword | backend/main.py:410-434 | 404 for an unknown id, then 400 for a missing, empty or shorter-than-6 password, otherwise only that user's hash changes |

## Left out

- Chunking.ChunkText: requires `Advances`, that is a positive chunk size and an overlap below `min(chunk_size, max(chunk_size - 198, 2))`. With other `CHUNK_SIZE` / `CHUNK_OVERLAP` settings the loop can fail to advance and never end (`OverlapAtBoundStalls`). A chunk size of 0 or less would need Python's negative-index slicing, which is not modelled.
- Models.FirstWhere: `.first()` is modelled as the earliest matching row in insertion order. Only in the login lookup (an `OR` query without `ORDER BY`) does it matter which of two matching rows `.first()` returns, when one user's username is another's email; SQL leaves the order open there, and `Api.Login` depends on this choice. The signup and `update_user` checks are `OR` queries too, but they only test whether a row exists. `Api.LoginConsultsOneUser` states what holds for any choice, and `Api.SignupThenLogin` excludes the two-row case.
- Auth.GetCurrentUser: built on the corrected `DecodeAccessToken` (see Findings), as are `Auth.GetCurrentUserOrder` and `Auth.FreshTokenAuthenticates`: a token with a bad signature or a past `exp` gets the intended 401. As written, `get_current_user` passes on the `NameError` of auth.py:70 and the client gets a 500; `Auth.GetCurrentUserAsWritten` models that, and `Auth.GetCurrentUserAsWrittenDiffers` states the difference.
- Text.Lower: lower-cases only the ASCII letters A–Z. Python's full Unicode case mapping is not modelled.
- Retrieval.RetrieveContext: `max_context_length` is a natural number, an input; its default of 8000 comes from the `MAX_CONTEXT_LENGTH` environment variable. A negative `MAX_CONTEXT_LENGTH` would cut from the end under Python slicing; that case is not modelled.
- Text extraction (`extract_text_from_file` and the `_extract_from_*` helpers) is file I/O with an encoding fallback and placeholder strings. Each document's extracted text is an input of the retrieval model instead.
- `process_document` is left out: it only logs and sets a status. `get_rag_service` is a process-wide singleton.
- The `except Exception` branches of `retrieve_relevant_context` and `_extract_relevant_snippet` are left out. The modelled string operations raise nothing, so their fallbacks are not reached.
- The database query for the user's completed documents is not modelled. `RetrieveRelevantContext` receives its result, in query order.
- The listing endpoints are left out: `get_my_chats`, `get_chat_history`, `get_my_documents`, `get_all_documents`, `get_all_users`, `get_user_chats`, `get_user_documents`. So are `get_system_stats`, which returns fixed mock figures, and `health_check`. They only read and serialise rows.
- Timestamps (`created_at`, `updated_at`, `isoformat`), message ids and message timestamps are not modelled.
- The uuid file names and `os.path.splitext` are not modelled; the stored path is an input of `UploadDocument`. The file bytes are not modelled; the upload directory is the set of paths present.
- The random choice of the reply's opening is not modelled as random; it is the input index `pick`.
- bcrypt is not modelled as hashing: a hash records its password and salt, and verification compares the passwords. bcrypt's 72-byte password limit is left out.
- HS256 signing is not modelled: a token records its claims and the signing key, and verification compares the keys. python-jose's claim checks beyond `exp` and `sub` are left out, since this payload carries no other registered claims.
- Times are whole seconds. `timedelta` values with fractions of a second are not modelled.
- The admin dependency of `update_user` and `change_user_password` is not an input of those methods: `GetCurrentAdminUser` decides whether they run at all.
- `Store.SendMessage` models only the state after the request. The new chat row is committed before its messages, and that intermediate state is not modelled.
- Row ids follow SQLite without `AUTOINCREMENT`, the default `DATABASE_URL` (one more than the largest id). Other database engines may number rows differently.
- Concurrent requests and the database's own unique constraints are left out. The uniqueness the handlers check is part of `Store.Valid`.
- A `password` field that is not a string (`len` would raise) is not modelled, and neither is an upload whose size is unknown. pydantic's email validation is also left out.
- The HTTP clients in `deepseek_client.py` and `groq_client.py` and the setup scripts are not part of this model.

## Findings

| source | as written | input that shows it | evidently intended | confidence | as-written member | corrected member |
|---|---|---|---|---|---|---|
| backend/auth.py:69-70 | the `except JWTError` handler logs `str(e)`, but the clause binds no `e`, so the handler raises `NameError` and the request fails with 500 | any token with a bad signature, or whose `exp` has passed | the 401 "Could not validate credentials" raised on lines 71-75 | not executed | Auth.DecodeAccessTokenAsWritten (with Auth.DecodeAsWrittenDiffers and Auth.GetCurrentUserAsWrittenDiffers) | Auth.DecodeAccessToken (used by Auth.GetCurrentUser) |
