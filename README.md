# FileNest folder sharing, modelled in Dafny

FileNest is a study-notes backend. Each account owns study folders. A folder holds flashcards
and uploaded files. An owner can share a folder with an e-mail address by creating a share
with one of three permission types:

- `view` lets the account read the folder's flashcards;
- `edit` also lets it create, update and move them;
- `admin` also lets it delete them.

A share starts pending. Only the account whose e-mail it was issued to can accept it, and only
once. The owner can change its permission type or revoke it at any time. A revoked share grants
nothing on the very next request.

This project models the authorization core of that backend:

- the three permission helpers;
- the share, flashcard and study-folder request handlers.

The model works over an in-memory picture of the database tables.

Layout:

- `wrappers.dfy` (`Wrappers`) holds `Option`, `Result` and the four error outcomes, which are
  404, 403, 400 and 500.
- `tables.dfy` (`Tables`) models the two query shapes the handlers use:
  - `.first()` is the first row of the table's sequence that satisfies a filter;
  - `.all()` is the filtered rows, in the table's sequence order.

  The queries carry no ORDER BY, so the database itself guarantees no order. The model fixes one
  (see "## Left out").

  It also holds the lemmas about them.
- `records.dfy` (`Records`) holds:
  - the rows: `User`, `Folder`, `Flashcard`, `File` and `Share`;
  - the value snapshot `Db`;
  - the store invariant `Consistent`, which says keys are unique, there is one share per
    (folder, e-mail) pair, and an accepted share is linked to the account it was issued to;
  - the session class `Store`, with one `seq` field per table and one next-id counter per
    autoincrement table.
- `permissions.dfy` (`Permissions`) models `verify_folder_ownership`, `verify_folder_access`
  and `verify_flashcard_access`, against the reference predicate `MayAccess`.
- `flashcard.dfy`, `foldershare.dfy` and `studyfolder.dfy` (`Flashcards`, `FolderShares`,
  `StudyFolders`) model the request handlers:
  - read-only handlers are functions on `Db`;
  - handlers that commit are methods on `Store` that keep `Valid()` and state the whole new
    state.
- `scenarios.dfy` (`Scenarios`) replays the repository's share tests as request sequences on a
  fresh store: invite twice, accept twice, revoke then read, a view share writing, an edit share
  updating and an edit share deleting.

A permission-type filter is `Option<seq<string>>`. `None` and the empty list both mean "no
filter", because the helper tests the list for truthiness. The editor roles are
`["edit", "admin"]`. Delete rights test `permission_type == "admin"`.

## Model

| member | source | states |
|---|---|---|
| Wrappers.StatusCode | backend/app/routes/foldershare.py:16-25 | each error outcome maps to one HTTP status; 404 exactly for not-found and 403 exactly for forbidden |
| Tables.FirstIndex | backend/app/utils/permissions.py:7-10 | `.first()`: the least index whose row passes the filter, and none exactly when no row passes |
| Tables.First | backend/app/utils/permissions.py:7-10 | `.first()` finds a row exactly when some row passes, and the row it returns is stored and passes |
| Tables.Filter | backend/app/routes/flashcard.py:35 | `.all()` keeps exactly the passing rows, and never more rows than the table |
| Tables.FilterCount | backend/app/routes/flashcard.py:35 | `.all()` keeps each passing row as many times as the table holds it, and no other row |
| Tables.FilterAppend | backend/app/routes/flashcard.py:35 | filtering distributes over appending rows |
| Tables.FirstCongruent | backend/app/utils/permissions.py:27-32 | two pointwise-equal filters give the same `.first()` |
| Tables.FilterKeepsAll | backend/app/routes/flashcard.py:35 | filtering rows that all pass returns them unchanged |
| Tables.FilterKeepsKeysUnique | backend/app/routes/foldershare.py:160 | removing rows keeps a primary key (or any other key) unique |
| Records.FindFolder | backend/app/routes/flashcard.py:232 | lookup by primary key: found exactly when a row has that id, and with unique ids it is that row |
| Records.FindFlashcard | backend/app/routes/flashcard.py:227 | lookup by primary key: found exactly when a row has that id, and with unique ids it is that row |
| Records.FindShare | backend/app/routes/foldershare.py:88-90 | lookup by primary key: found exactly when a row has that id, and with unique ids it is that row |
| Records.FindUserByEmail | backend/app/routes/foldershare.py:28 | lookup of the account with an e-mail: found exactly when one exists, and with unique e-mails it is that account |
| Records.ReplaceFlashcard | backend/app/routes/flashcard.py:189-223 | committing an edited card replaces the row with its id, keeps every other row and keeps ids unique |
| Records.ReplaceShare | backend/app/routes/foldershare.py:128-134 | committing an edited share replaces the row with its id, keeps every other row and keeps ids unique |
| Records.ReplaceFolder | backend/app/routes/studyfolder.py:41-49 | committing an edited folder replaces the row with its id, keeps every other row and keeps ids unique |
| Records.WithoutFlashcard | backend/app/routes/flashcard.py:255-256 | after `db.delete` no card with that id remains, every other card remains, and no row is added |
| Records.WithoutShare | backend/app/routes/foldershare.py:160-161 | after `db.delete` no share with that id remains, every other share remains, and uniqueness of ids and of invitations is kept |
| Records.WithoutFolder | backend/app/routes/studyfolder.py:58-59 | after `db.delete` no folder with that id remains, every other folder remains, and ids stay unique |
| Records.ConsistentWithFlashcards | backend/app/routes/flashcard.py:147-155 | the store invariant holds for any flashcard table with unique ids |
| Records.FreshFlashcardKeepsIdsUnique | backend/app/routes/flashcard.py:150-154 | a new row numbered above every stored id keeps flashcard ids unique |
| Records.ConsistentWithFolders | backend/app/routes/studyfolder.py:23-24 | the store invariant holds for any folder table with unique ids |
| Records.Store.constructor | backend/app/main.py:6-7 | a session on a freshly created schema, holding the given accounts and files as the test fixtures add them, is valid, with empty folder, flashcard and share tables and every id sequence at 1 |
| Permissions.VerifyFolderOwnership | backend/app/utils/permissions.py:5-11 | a folder is returned exactly when the user owns one with that id, and it is that folder |
| Permissions.FindGrant | backend/app/utils/permissions.py:20-32 | the share query finds a row exactly when an accepted share of the folder to the user passes the type filter |
| Permissions.VerifyFolderAccess | backend/app/utils/permissions.py:13-46 | access is granted exactly to the owner, or to a holder of a qualifying accepted share of an existing folder; every refusal is 404; the owner always gets the folder |
| Permissions.VerifyFlashcardAccess | backend/app/utils/permissions.py:48-63 | 404 exactly when the card is missing; otherwise granted exactly to the card's creator or to whoever has folder access, else 403 |
| Permissions.AtMostOneGrant | backend/app/routes/foldershare.py:18-25 | in a consistent store, an account holds at most one accepted share of a folder |
| Permissions.EmptyFilterIsNoFilter | backend/app/utils/permissions.py:27-30 | an empty permission list filters nothing: the same result as no list |
| Permissions.FilterTiers | backend/app/utils/permissions.py:27-30 | an admin-only grant passes the editor filter, and an editor grant passes the unfiltered check |
| Flashcards.FindAdminGrant | backend/app/routes/flashcard.py:242-247 | the admin-share query finds a row exactly when an accepted `admin` share of the folder to the account exists |
| Flashcards.EditPermission | backend/app/routes/flashcard.py:135-145 | the edit check the create, update and move handlers write out (owner, or an accepted `edit`/`admin` share) decides exactly the editor-filtered access of the evaluator |
| Flashcards.AdminPermission | backend/app/routes/flashcard.py:237-253 | the delete handler's check (owner, or an accepted `admin` share) decides exactly the delete rights of a stored folder |
| Flashcards.FolderFlashcards | backend/app/routes/flashcard.py:35 | a folder's listing holds exactly the cards of that folder, each as many times as the table holds it (so once under unique ids) |
| Flashcards.GetFlashcards | backend/app/routes/flashcard.py:11-36 | listing succeeds exactly for the owner or an accepted sharee of an existing folder, of any type; this agrees with `verify_folder_access` without a filter; refusal is 404; the listing holds exactly the folder's cards, each as many times as the table holds it |
| Flashcards.ListingAfterCreate | backend/app/routes/flashcard.py:66-80 | adding cards to a folder extends its listing by exactly those cards; "at the end" refers to the sequence order the model fixes for `.all()`, not to an order the database promises |
| Flashcards.AddGenerated | backend/app/routes/flashcard.py:64-78 | the insert loop: one new row per generated item, in order, numbered consecutively from the next id, in the folder and created by the caller; only the flashcard table and its id sequence change |
| Flashcards.CreateFlashcards | backend/app/routes/flashcard.py:39-80 | succeeds exactly with edit rights, else 404 and nothing committed; one card per generated item, in order, with consecutive fresh ids, in the folder, created by the caller; only the flashcard table changes |
| Flashcards.GetIndividualFlashcard | backend/app/routes/flashcard.py:82-104 | as written: 404 exactly when the card is missing; otherwise granted exactly to the card's creator or to an accepted sharee of its folder, else 403 |
| Flashcards.OwnerRefusedCollaboratorCard | backend/app/routes/flashcard.py:91-102 | as written, the folder owner gets 403 for a card a collaborator created in the folder, although the owner's listing shows it and `verify_flashcard_access` admits the owner |
| Flashcards.OwnerRefusedExample | backend/app/routes/flashcard.py:91-102 | a concrete consistent store in which the owner of folder 10 is refused card 100 |
| Flashcards.GetIndividualFlashcardCorrected | backend/app/routes/flashcard.py:82-104 | corrected: the folder owner is admitted as well as the creator and accepted sharees |
| Flashcards.CorrectedAgreesWithEvaluator | backend/app/utils/permissions.py:48-63 | when every card's folder exists, the corrected handler and `verify_flashcard_access` without a filter give the same answer |
| Flashcards.OwnFlashcards | backend/app/routes/flashcard.py:109 | exactly the cards the caller created, each as many times as the table holds it |
| Flashcards.SharedFlashcards | backend/app/routes/flashcard.py:112-120 | exactly the cards in folders of which the caller holds an accepted share, each as many times as the table holds it |
| Flashcards.GetAllFlashcards | backend/app/routes/flashcard.py:106-125 | exactly the caller's own cards and the cards of folders shared with the caller and accepted; a card in both parts is listed twice; the list concatenation puts every own card before every shared one |
| Flashcards.CreateIndividualFlashcard | backend/app/routes/flashcard.py:127-156 | 404 if the folder is missing, 403 without edit rights, else exactly one new card with the next id created by the caller; nothing else changes |
| Flashcards.UpdateFlashcard | backend/app/routes/flashcard.py:158-223 | 404 if the card or its folder is missing; 403 without edit rights; a move also needs the target folder (404) and edit rights on it (403); only the supplied fields change, and any error commits nothing |
| Flashcards.DeleteFlashcard | backend/app/routes/flashcard.py:225-257 | 404 if the card or its folder is missing; removed exactly for the owner or an accepted `admin` sharee; 403 otherwise; only that row goes |
| Flashcards.DeletedFlashcardIsGone | backend/app/routes/flashcard.py:255-256 | after a delete, reading that card gives 404, both as written and corrected |
| Flashcards.EditGrantCannotDelete | backend/app/routes/flashcard.py:237-253 | an accepted `edit` share of a non-owner gives edit rights but never delete rights |
| Flashcards.AdministerImpliesEdit | backend/app/routes/flashcard.py:44-61 | delete rights imply edit rights, and edit rights imply the right to list |
| FolderShares.FindInvitation | backend/app/routes/foldershare.py:19-22 | the duplicate check finds a row exactly when the folder already has a share for that address |
| FolderShares.FindPendingInvitation | backend/app/routes/foldershare.py:172-176 | the accept query finds a row exactly when a share with that id, issued to that address, is still pending |
| FolderShares.Accepted | backend/app/routes/foldershare.py:181-184 | accepting links the share to the caller, marks it accepted, stamps the time and keeps its folder, address and type |
| FolderShares.ConsistentAfterInvite | backend/app/routes/foldershare.py:18-51 | appending a pending share with a fresh id for an address not yet invited to the folder keeps the store invariant |
| FolderShares.ConsistentAfterRewrite | backend/app/routes/foldershare.py:127-134 | rewriting a share in place keeps the store invariant if its folder and address stay and an acceptance links the invited account |
| FolderShares.ConsistentAfterRevoke | backend/app/routes/foldershare.py:160-161 | deleting a share keeps the store invariant |
| FolderShares.GetFolderShares | backend/app/routes/foldershare.py:58-78 | owner only, else 404; the list holds exactly the folder's shares, each as many times as the table holds it |
| FolderShares.GetShare | backend/app/routes/foldershare.py:80-102 | 404 exactly when the share is missing; 500 exactly when its folder is missing; otherwise visible exactly to the folder owner or the share's linked account, else 403 |
| FolderShares.ShareFolder | backend/app/routes/foldershare.py:11-56 | 404 unless the caller is the owner; 400 if the address was already invited to the folder; otherwise exactly one new pending share with the next id, linked to the account with that address when one exists |
| FolderShares.UpdateShare | backend/app/routes/foldershare.py:104-136 | 404 if missing, 500 if the folder is missing, 403 unless the owner; otherwise only the permission type (when supplied) and the update time change |
| FolderShares.DeleteShare | backend/app/routes/foldershare.py:138-163 | 404 if missing, 500 if the folder is missing, 403 unless the owner; otherwise exactly that row is removed |
| FolderShares.AcceptShare | backend/app/routes/foldershare.py:165-189 | 404 exactly when no pending share with that id was issued to the caller's address; otherwise it is linked to the caller and accepted, and nothing else changes |
| FolderShares.AcceptOnlyOnce | backend/app/routes/foldershare.py:172-179 | after an acceptance no pending share with that id remains, so a second acceptance is refused |
| FolderShares.RevocationIsImmediate | backend/app/routes/foldershare.py:160-161 | once a non-owner's accepted share is deleted, listing the folder's cards and every folder-access check give that account 404 |
| StudyFolders.ListFolders | backend/app/routes/studyfolder.py:11-14 | exactly the caller's own folders, with their multiplicities; shared folders are not listed |
| StudyFolders.GetFolderById | backend/app/routes/studyfolder.py:28-33 | the folder exactly when the caller owns it, else 404 |
| StudyFolders.FolderFiles | backend/app/routes/studyfolder.py:69 | exactly the files of the folder, each as many times as the table holds it |
| StudyFolders.Entries | backend/app/routes/studyfolder.py:70-77 | one (id, filename, url = storage key) entry per file, same length and order; an entry is listed exactly when some file maps to it |
| StudyFolders.GetFilesInFolder | backend/app/routes/studyfolder.py:63-77 | owner only, else 404; exactly one (id, filename, storage-key url) entry per file of the folder, in the same order and number as the folder's files |
| StudyFolders.ForeignFolderLooksMissing | backend/tests/test_folders.py:210-240 | another account's folder and a missing folder give the same 404 on every read |
| StudyFolders.CreateFolder | backend/app/routes/studyfolder.py:16-26 | never fails: exactly one new folder with the next id, owned by the caller, not yet updated |
| StudyFolders.UpdateFolder | backend/app/routes/studyfolder.py:35-51 | owner only, else 404 and nothing changes; the supplied name and description replace the old ones, the update time is set, and the id and owner stay |
| StudyFolders.DeleteFolder | backend/app/routes/studyfolder.py:53-60 | owner only, else 404; exactly that folder row is removed and no other table changes |
| StudyFolders.DeletedFolderIsGone | backend/tests/test_folders.py:181-208 | after a delete, the folder is 404 for the owner and for every access check |
| Scenarios.Setup | backend/tests/test_shares.py:54-86 | a valid store with the two accounts and one folder of the first |
| Scenarios.DuplicateInvitation | backend/tests/test_shares.py:112-136 | the first invitation is pending and linked to the registered account; inviting the same address again gives 400 |
| Scenarios.AcceptTwice | backend/tests/test_shares.py:226-249 | the first acceptance links and accepts the share; the second gives 404 |
| Scenarios.SetupShared | backend/tests/test_shares.py:254-276 | a valid store where the second account holds an accepted share of the given type |
| Scenarios.RevokedShareLosesAccess | backend/tests/test_shares.py:310-346 | the sharee lists the folder's cards before the revoke and gets 404 after it |
| Scenarios.ViewGrantCannotWrite | backend/app/routes/flashcard.py:135-145 | a `view` sharee lists the folder's cards but gets 403 when creating one |
| Scenarios.EditGrantUpdates | backend/tests/test_flashcards.py:225-238 | an `edit` sharee updates a card the owner created, and the card keeps its creator |
| Scenarios.EditGrantCannotDelete | backend/app/routes/flashcard.py:237-253 | an `edit` sharee gets 403 when deleting the owner's card |

## Left out

- Row order is fixed by the model, not by the database. The queries carry no ORDER BY, so the
  database may return `.all()` rows in any order and choose any matching row for `.first()`. The
  model reads both against the table's sequence order, and an update keeps a row in its place.
  Every order claim (`Tables.FirstIndex`, `Flashcards.ListingAfterCreate`, the entry order of
  `StudyFolders.GetFilesInFolder`) is about that chosen order. The exceptions are `.first()` on
  a unique key, whose row is the same in any order, and the own-then-shared order of
  `Flashcards.GetAllFlashcards`, which comes from the Python list concatenation. Where `.first()`
  runs on a filter that is not a unique key, the handlers only test whether a row was found.
- The HTTP layer is not modelled: routing, request and response schemas, and the JSON shapes.
  Handlers take their parsed arguments and return a `Result`.
- Authentication is not modelled: tokens and password hashing. The caller is a `User` value,
  and `AcceptShare` requires that it is a stored account.
- Clocks are parameters. The `datetime.now` update stamps become a `now` parameter and are
  stored as an opaque `updatedAt`; creation stamps are not modelled.
- The flashcard text generator behind `create_flashcards` is a parameter. Its output is
  `generated`, and the call into it and its failures are not modelled.
- The invitation e-mail that `share_folder` prints instead of sending is left out; it is output
  only.
- Transactions and concurrency are not modelled. Each handler runs alone and commits all or
  nothing. No handler commits part of its work before an error, so the error paths change nothing.
- Database-level cascades are not modelled. The `StudyFolder`, `Flashcard` and `FolderShare`
  models are not part of this model, so `DeleteFolder` removes the folder row only. Its shares
  and flashcards stay (`GetShare` then answers 500, `GetFlashcards` 404).
- File upload, download and preview routes, the S3 storage service, chat, the account routes
  and the frontend are not part of this model. `get_files_in_folder` uses the stored key as the
  url.
- Reading attributes of a missing folder fails in the handler (500). This is modelled as the
  `Internal` error in `GetShare`, `UpdateShare` and `DeleteShare`.
- Permission types are free strings, as in the source; no enumeration is imposed.

## Findings

| source | as written | input that shows it | evidently intended | confidence | as-written member | corrected member |
|---|---|---|---|---|---|---|
| backend/app/routes/flashcard.py:91-102 | reading one flashcard admits its creator and any accepted sharee of its folder, but not the folder's owner | account 1 owns folder 10; account 2 holds an accepted `edit` share of it and created card 100 there; account 1 asks for card 100 and gets 403 | the owner reads every card of the folder, as listing, update and delete and `verify_flashcard_access` allow | not executed | Flashcards.GetIndividualFlashcard, Flashcards.OwnerRefusedExample | Flashcards.GetIndividualFlashcardCorrected |
