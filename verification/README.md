# Knowledge management core, modelled in Dafny

This project models the core of a Streamlit knowledge-management application
and proves properties of it. Staff log in with accounts that an administrator
approves. They write knowledge items (title, content, category, tags and an
optional attached file), and they find items by keyword or by meaning.

The model has three parts.

1. **Search-index maintenance.**
   - `VectorStore` models the FAISS vector store as a pair of states: the
     handle that `get_vectorstore` caches for the process, and the two index
     files on disk.
   - Pure step functions (`Load`, `GetStep`, `AddStep`, `SearchStep`,
     `RebuildStep`) say what each operation does to that pair. The class
     `VectorStore.Index` performs the same operations in place, and each of
     its methods is proved equal to its step function.
   - The following behaviours are stated and proved:
     - the id-0 placeholder and fallback stores;
     - appending in place, which keeps stale entries for the same id;
     - the failure paths that save a store holding only the new document;
     - rebuilds that save a new store but leave the cached handle as it was.
   - `Knowledge` keeps the `knowledge_items` table and the index in step:
     - add inserts the row and then sets `vector_indexed`;
     - update rewrites the row and re-adds a vector;
     - delete removes the row and then rebuilds from the remaining rows.

   It also gives the keyword search (filter, newest first, limit), the join of
   semantic hits back to rows, and the sorted category list.
2. **Account rules.**
   - `Auth` holds:
     - the email pattern, checked by hand and proved equal to the pattern's
       shape (including the trailing newline that `$` lets through);
     - the ordered password-strength checks;
     - the login gate (approved accounts only);
     - registration;
     - `check_auth` and the two page guards.
   - `Users` holds status and role changes (fixed value sets), profile update
     (email uniqueness, password change only when the current password
     verifies), and the pending-user and contribution lists.
   - `Database` holds the row types, the abstract password hash, the
     table invariants and the idempotent seeding of the default administrator.
   - `LoginForm` holds the login page's session flags and the registration
     form's error chain.
3. **Knowledge-form helpers.** `KnowledgeForm` covers:
   - file extension and file name;
   - the title taken from extracted text;
   - the required-field check;
   - the category options;
   - removal of the edit form's `edit_` session keys.

Support modules:
- `Seqs`: a stable sort, the "first n by key" used for LIMIT and top-k, filter, and Python's `split` and `split(...)[-1]`.
- `Text`: character classes, ASCII case folding, substring search and string order.
- `Session`: the `st.session_state` dictionary.
- `Wrappers`: `Option` and `Outcome`.

Environment inputs:
- Clock readings become an integer `now` parameter.
- The results of library, database and filesystem calls that can raise become fault records supplied by the caller: which call raises, and with what text.
- The hash function and the query-to-document distance are values the caller supplies.

The table invariant `Db.Valid` holds:
- row ids are positive and ascending, and below the AUTOINCREMENT counters;
- usernames and emails are unique.

Every state-changing method requires it and re-establishes it.

## Model

| member | source | states |
|---|---|---|
| VectorStore.Load | modules/vectorstore.py:16-49 | the index files are loaded exactly when both exist and nothing raises; a missing file or failed load gives the one-entry id-0 "Initial document" store, saved to disk; any other error gives the unsaved id-0 "Fallback document" store; the call raises exactly when that handler is reached and the fallback store fails too |
| VectorStore.GetStep | modules/vectorstore.py:13-49 | once a handle is cached it is returned unchanged; otherwise the loaded store is cached, unless loading raised |
| VectorStore.Index.GetVectorstore | modules/vectorstore.py:13-49 | the in-place handle and files change exactly as `GetStep` says |
| VectorStore.DocsOf | modules/vectorstore.py:126-141 | one document per item, in item order, with metadata exactly {id, title, category, tags} and the content as the embedded text |
| VectorStore.AddStep | modules/vectorstore.py:51-113 | True means the saved store ends with the new document; the normal path appends to the cached handle, keeping every earlier entry; on every other path the result is True exactly when a store of the new document alone is built and saved (after a raising `get_vectorstore`, when the fresh store is built and saved; otherwise when the insert or the second attempt works and the save works), and that lone document is then the disk's content; False writes nothing beyond what loading wrote |
| VectorStore.Index.AddToVectorstore | modules/vectorstore.py:51-113 | never raises; the result and the new handle and files are those of `AddStep` |
| VectorStore.AddKeepsStaleEntry | modules/vectorstore.py:83-86 | after a normal add, the old document for the same id is still in the store, before the new one |
| VectorStore.Nearest | modules/vectorstore.py:115-119 | returns min(k, size) hits, distinct stored entries (no stored document used more often than it is stored), each with its own distance, nearest first; no document left out is nearer than one returned |
| VectorStore.SearchStep | modules/vectorstore.py:115-119 | searches the store `get_vectorstore` returns; at most k hits; no result when that call raised |
| VectorStore.Index.SemanticSearch | modules/vectorstore.py:115-119 | the in-place search matches `SearchStep` |
| VectorStore.RebuildStep | modules/vectorstore.py:121-152 | succeeds exactly when no library call raises; then the saved store is exactly one entry per item, in item order, with metadata {id, title, category, tags} and the content embedded, and no placeholder; the cached handle is never replaced |
| VectorStore.Index.RebuildVectorstore | modules/vectorstore.py:121-152 | the document-building loop and the save match `RebuildStep` |
| VectorStore.RebuildThenAddRestoresCachedEntries | modules/vectorstore.py:144-147 | after a rebuild, the next normal add saves the stale cached handle plus the new document, so entries the rebuild dropped reach the disk again |
| Database.VerifyOwnHash | modules/database.py:66-72 | a password always verifies against its own hash, and verification is exactly hash equality |
| Database.SeedAdmin | modules/database.py:49-60 | the administrator row (role 'admin', status 'approved') is added only when no user has the username 'admin'; the INSERT fails only when its email is already taken |
| Database.SeedAdminIdempotent | modules/database.py:50-53 | seeding a second time changes nothing |
| Database.SeedAdminLeavesOneAdmin | modules/database.py:50-60 | after seeding, exactly one row has the administrator's username |
| Database.Db.InitDatabase | modules/database.py:13-64 | the users table becomes the seeded one, the items table is unchanged, and the table invariant holds |
| Knowledge.FindItem | modules/knowledge.py:125-140 | finds a row exactly when one has the id, and returns a row with that id |
| Knowledge.AddKnowledgeItem | modules/knowledge.py:8-42 | an insert error changes nothing; otherwise exactly one row is appended with the next id, created = last updated = now, and the given file path; the vector is added; `vector_indexed` is set whatever the vector store reported, unless the flag update itself raised |
| Knowledge.Entries | modules/knowledge.py:113-114 | one entry per remaining row, in table order, carrying exactly its id, title, content, category and tags |
| Knowledge.MarkIndexed | modules/knowledge.py:35-36 | the row with the id gets `vector_indexed` set and keeps every other column; all other rows are untouched (also the flag UPDATE at lines 84-85) |
| Knowledge.ApplyUpdate | modules/knowledge.py:67-77 | rows with the id get the new title, content, category, tags and last-updated time, keep their creation date and author, and get `vector_indexed` cleared; the file path changes only when a new one is given; all other rows are untouched |
| Knowledge.UpdateWritesNewPath | modules/knowledge.py:59-77 | writing the row's current path back, or the uploaded file's path, gives the same rows as changing the path only when a file was uploaded |
| Knowledge.WriteUpdate | modules/knowledge.py:52-78 | the row with the id is rewritten as `ApplyUpdate` says, with the uploaded file's path when there is one, and the table invariant still holds |
| Knowledge.UpdateKnowledgeItem | modules/knowledge.py:44-91 | a write error changes nothing; otherwise the row is rewritten, a vector is re-added even for a missing id, the flag is set, and success is reported even when no row had that id |
| Knowledge.RemoveItem | modules/knowledge.py:108-110 | removes every row with the id and keeps every other row in order, so the ids stay ascending |
| Knowledge.DeleteKnowledgeItem | modules/knowledge.py:93-123 | the row is removed first; the index is then rebuilt from exactly the remaining rows; a rebuild failure reports the error with the row already gone |
| Knowledge.Matching | modules/knowledge.py:155-162 | keeps exactly the rows whose title, content or tags contain the term (case-insensitive) and whose category is equal; an empty term, and an empty or "All Categories" category, add no condition |
| Knowledge.MatchingCounts | modules/knowledge.py:155-162 | the WHERE clause keeps each matching row exactly as often as it is in the table, and nothing else |
| Knowledge.SearchKnowledgeItems | modules/knowledge.py:142-173 | only matching rows, no row more often than in the table, most recently updated first; a positive limit n yields min(n, number of matching rows) rows; with no cap every matching row is listed, each as often as in the table; every matching row left out is no newer than every row listed |
| Knowledge.SearchWithoutFiltersListsAll | modules/knowledge.py:155-167 | with no term, "All Categories" and limit 0, every row is listed |
| Knowledge.SearchMatchesTagsAndCategory | modules/knowledge.py:155-162 | a term found only in the tags still finds the row, and a category filter excludes every other category |
| Knowledge.JoinHits | modules/knowledge.py:183-190 | each joined pair holds a table row, and there are never more pairs than hits |
| Knowledge.JoinAppend | modules/knowledge.py:184-188 | the join distributes over concatenation of hit lists, so it keeps hit order and handles each hit on its own |
| Knowledge.JoinSingle | modules/knowledge.py:184-188 | a hit is kept exactly when its id has a row, with its score unchanged; the id-0 placeholder is always dropped |
| Knowledge.JoinKeepsDuplicates | modules/knowledge.py:184-188 | two hits for the same id give that row twice: there is no deduplication |
| Knowledge.JoinRows | modules/knowledge.py:183-190 | the appending loop computes the join |
| Knowledge.SemanticSearchWithDetails | modules/knowledge.py:175-190 | the semantic hits joined to current rows, or no result when the search raised |
| Knowledge.Categories | modules/knowledge.py:192-201 | each category appears exactly once, in ascending order |
| Text.Contains | modules/knowledge.py:155-158 | the substring test behind LIKE '%term%' holds exactly when the term occurs at some position |
| Text.InsertDistinct | modules/knowledge.py:197 | keeps a list strictly ascending and adds exactly the one new element |
| Seqs.Lowest | modules/knowledge.py:164-167 | the first n elements by key, sorted and drawn from the input; no element left out has a smaller key than one kept |
| Seqs.Select | modules/users.py:31 | WHERE then ORDER BY: exactly the rows satisfying the condition, each as often as in the table, in key order |
| Seqs.JoinSplit | modules/ui/knowledge_form.py:197 | splitting at a separator and joining the parts back gives the original text |
| Seqs.LastField | modules/ui/knowledge_form.py:135 | `split(sep)[-1]` is the longest suffix without the separator, preceded by the separator unless it is the whole text |
| Session.Get | modules/auth.py:89 | the stored value when the key is present, else the default |
| Auth.ValidateEmail | modules/auth.py:63-66 | accepts exactly the strings of shape local '@' label '.' tail over the pattern's character classes, and those same strings followed by one newline; the registration page's own copy (modules/ui/login.py:470-473) has the identical pattern |
| Auth.FullMatchIsShape | modules/auth.py:65-66 | the hand-written check (first '@', first '.' after it, character classes) succeeds exactly when the string has the pattern's shape |
| Auth.AcceptedEmailHasOneAt | modules/auth.py:65-66 | an accepted address holds exactly one '@', with characters on both sides |
| Auth.EmailExamples | modules/auth.py:65-66 | illustration of the pattern: "admin@example.com" is accepted, also with a trailing newline; "a@b" and "@example.com" are rejected |
| Auth.ValidatePassword | modules/auth.py:68-82 | the password is accepted exactly when it has at least 8 characters, an uppercase letter, a lowercase letter and a digit; otherwise the message is the first broken rule, in that order; the registration page's copy (modules/ui/login.py:475-489) is the same |
| Auth.ShortPasswordReportsLength | modules/auth.py:70-82 | every password shorter than 8 characters is rejected with the length message, whatever other rules it breaks |
| Auth.PasswordExamples | modules/auth.py:70-82 | illustration: "abc" is too short, "abcdefgh" lacks an uppercase letter, "Abcdefgh1" is accepted with an empty message |
| Auth.FindUser | modules/auth.py:12-13 | finds a row exactly when one has the username |
| Auth.LoginUser | modules/auth.py:7-23 | returns only an existing account with that username, whose password verifies and whose status is 'approved' |
| Auth.LoginGate | modules/auth.py:12-23 | with unique usernames, login succeeds exactly for an approved account whose stored hash is the password's hash |
| Auth.InputCheck | modules/auth.py:27-36 | the checks before the database is opened pass exactly when all four fields are non-empty, the email is valid and the password is strong; a failure is never the taken-account message |
| Auth.RegistrationCheck | modules/auth.py:28-46 | reports the first failure in the order: all fields non-empty, email format, password strength, username or email already taken |
| Auth.RegisterUser | modules/auth.py:25-61 | a failed input check is reported first; a database error is reported next, as "Registration failed: " and its text, ahead of the taken-account check that runs inside the `try`; any failure inserts nothing; success inserts exactly one row with the next id, role 'user' and status 'pending' |
| Auth.NewAccountCannotLogIn | modules/auth.py:48-58 | a freshly registered account cannot log in until it is approved |
| Auth.CheckAuth | modules/auth.py:84-89 | not authenticated, with no role, unless `logged_in` is present and true; otherwise authenticated, with the stored role or 'user' |
| Auth.RequireAuth | modules/auth.py:91-100 | the page runs exactly when the session is logged in |
| Auth.RequireAdmin | modules/auth.py:102-111 | the page runs exactly when the session is logged in with role 'admin' |
| Auth.AdminPagesNeedLogin | modules/auth.py:102-111 | every page an administrator can open also needs a login; a logged-in session with no role is an ordinary user |
| Users.SetStatus | modules/users.py:57 | only the status field of the row with the id changes |
| Users.SetRole | modules/users.py:74 | only the role field of the row with the id changes |
| Users.SetProfile | modules/users.py:106-117 | only email, full name and (when given) password of the row with the id change |
| Users.FindUserById | modules/users.py:100-101 | finds a row exactly when one has the id |
| Users.SetStatusKeepsAccounts | modules/users.py:56-58 | status and role changes keep ids, usernames and emails unique |
| Users.SetProfileKeepsAccounts | modules/users.py:92-96 | writing an email that no other account holds keeps the emails unique |
| Users.UpdateUserStatus | modules/users.py:48-63 | a status outside pending/approved/rejected gives "Invalid status" and changes nothing; a valid one changes only that user's status |
| Users.UpdateUserRole | modules/users.py:65-80 | a role outside user/admin gives "Invalid role" and changes nothing; a valid one changes only that user's role |
| Users.UpdateUserProfile | modules/users.py:82-124 | an invalid email is rejected first, then an email held by another account; the password changes only when both passwords are given and the current one verifies; a wrong current password changes nothing |
| Users.ApprovalEnablesLogin | modules/users.py:57 | approving an account lets its owner log in with the right password; rejecting it does not |
| Users.GetPendingUsers | modules/users.py:26-35 | exactly the pending accounts, each as often as in the table, newest first |
| Users.AuthoredBy | modules/users.py:131-136 | exactly the user's items, each as often as in the table, most recently updated first |
| Users.GetUserContributions | modules/users.py:126-141 | the selected columns of those items, in that order |
| LoginForm.ShowLoginFailed | modules/ui/login.py:128-130 | the message is shown exactly when the flag is set, and the flag is off afterwards, so one failure is shown once |
| LoginForm.RecordLogin | modules/ui/login.py:161-181 | a successful login marks the session logged in with the account's role, so the admin guard passes exactly for admins; a failed one only sets the login-failed flag |
| LoginForm.FormError | modules/ui/login.py:417-431 | the reported error is the first failing check in the order: fields present, email format, passwords equal, terms agreed, password strength |
| LoginForm.SubmitRegistration | modules/ui/login.py:415-452 | `register_user` is called exactly when no check fails, with (username, password, email, full name) |
| LoginForm.SubmittedFormPassesRegisterChecks | modules/ui/login.py:433-452 | a form that passes the page's checks can only be refused by `register_user` for a taken username or email |
| LoginForm.MismatchReportedBeforeStrength | modules/ui/login.py:419-431 | for every submission whose fields are filled and whose email is valid, two different passwords are reported as "Passwords do not match", whatever the password's strength and the terms box |
| LoginForm.MismatchExample | modules/ui/login.py:423-431 | illustration: the weak password "abc" confirmed as "abd" is reported as a mismatch |
| KnowledgeForm.FileExtension | modules/ui/knowledge_form.py:135 | the lowercased text after the last '.' of the name |
| KnowledgeForm.FileName | modules/ui/knowledge_form.py:345 | the text after the last '/' of the path |
| KnowledgeForm.FirstNonBlank | modules/ui/knowledge_form.py:197-198 | the first line with a non-whitespace character, or "" when there is none |
| KnowledgeForm.Shorten | modules/ui/knowledge_form.py:199-200 | at most 70 characters; a longer title keeps its first 67 characters and gains "..." |
| KnowledgeForm.ExtractTitle | modules/ui/knowledge_form.py:195-200 | at most 70 characters, no newline; empty only when every line is blank; otherwise the shortened first non-blank line |
| KnowledgeForm.CheckRequired | modules/ui/knowledge_form.py:56-58 | saving is refused exactly when title, content or category is empty; the OCR form (lines 235-237) and the edit form (lines 361-363) apply the same check |
| KnowledgeForm.Distinct | modules/ui/knowledge_form.py:44 | the same elements, each once |
| KnowledgeForm.CategoryOptions | modules/ui/knowledge_form.py:42-44 | exactly the five defaults and the existing categories, each once |
| KnowledgeForm.CategoryIndex | modules/ui/knowledge_form.py:333-336 | the first position of the stored category, or 0 when it is not an option |
| KnowledgeForm.ClearEditKeys | modules/ui/knowledge_form.py:391-393 | exactly the session keys starting with "edit_" are removed; every other key keeps its value |

## Left out

- The `knowledge_items` and `users` tables are sequences of rows in rowid order, not maps: the rebuild order and ties in ORDER BY depend on row order.
- Knowledge.SearchKnowledgeItems: `%` and `_` inside a search term are LIKE wildcards; the model treats the term as plain text. The model folds case for ASCII letters only, as SQLite's LIKE does by default.
- Knowledge.SearchKnowledgeItems: a limit that is not an integer is pasted into the SQL text; the model takes an integer.
- Knowledge.SearchKnowledgeItems: ties in `last_updated` come back in an order SQLite does not fix; the contract does not fix it either.
- Knowledge.FindItem: the `username` and `full_name` columns of the LEFT JOIN with `users` are not modelled. The join never removes a row.
- Knowledge.SearchKnowledgeItems: the same LEFT JOIN columns (`username`, `full_name`) are dropped from the search results too. The join neither adds nor removes a row.
- KnowledgeForm.FileExtension: Python's `str.lower()` folds every Unicode letter, and can change the length (for example 'İ'); the model folds ASCII letters only. The branches that use the extension compare it with ASCII names only.
- Auth.ValidatePassword: Python's `\d` also matches non-ASCII digits; the model accepts ASCII digits only.
- VectorStore.Nearest: FAISS distances are floats, and FAISS does not define the order of equal distances. The model uses an abstract integer distance of query and content, and takes equal distances in insertion order.
- The embedding model, FAISS, pickling and `st.cache_resource` are foreign code. The cache is the `cached` field, and the files are the `disk` field.
- Exceptions are fault records supplied by the caller, and their texts are opaque strings.
  - A database fault in `update_user_profile`, `update_user_status`, `update_user_role` and `register_user` is taken to be raised by the first statement in the `try` block, so nothing is written.
  - A fault in `add_knowledge_item` or `update_knowledge_item` is raised by the row write or by the later flag update.
- Knowledge.SemanticSearchWithDetails: when `semantic_search` raises, the exception propagates in the source; the model returns no result instead.
- Filesystem effects are not modelled: saving an upload under a uuid name, deleting old or removed files, and creating directories. The path of a saved upload is an input.
- `datetime.now()` is an integer `now` parameter. The "%Y-%m-%d %H:%M:%S" strings sort in the same order.
- `st.error`, `st.warning`, progress bars, `time.sleep`, `st.rerun` and all page markup are not modelled. `require_auth` and `require_admin` return no result where the source shows an error and reruns.
- KnowledgeForm.CategoryOptions: `list(set(...))` has an order Python does not fix. The contract states only membership and absence of duplicates, and the body keeps first occurrences. `CategoryIndex` is therefore stated against whatever order the options have.
- OCR and document parsing (pytesseract, PIL, PyMuPDF, python-docx) are not modelled. Only the title taken from the extracted text is.
- `CREATE TABLE IF NOT EXISTS` is not modelled: the tables always exist. The column defaults (role 'user', status 'pending', `vector_indexed` 0) are written out by the inserts that rely on them.
- `get_user`, `get_user_by_username`, `get_all_users`, `get_knowledge_stats`, the sidebar, the page routing and the preview and score formatting of the other pages are not part of this model.
