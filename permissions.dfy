/** The access evaluator: whether a caller may see a folder, or a flashcard, possibly only
    through shares of given permission types. It reads the store and changes nothing. */
module Permissions {
  import opened Wrappers
  import opened Tables
  import opened Records

  /** The permission types the create and update checks accept. */
  const EditorRoles: seq<string> := ["edit", "admin"]

  /** The optional `permission_types` filter: absent or empty means any type. */
  predicate PermissionAllowed(permissionTypes: Option<seq<string>>, permissionType: string) {
    match permissionTypes
    case None => true
    case Some(types) => |types| == 0 || permissionType in types
  }

  /** Share `s` is an accepted grant of folder `folderId` to account `userId` whose type passes the filter. */
  predicate IsGrant(s: Share, folderId: int, userId: int, permissionTypes: Option<seq<string>>) {
    && s.folderId == folderId
    && s.userId == Some(userId)
    && s.invitationAccepted
    && PermissionAllowed(permissionTypes, s.permissionType)
  }

  ghost predicate FolderExists(db: Db, folderId: int) {
    exists f :: f in db.folders && f.id == folderId
  }

  ghost predicate IsOwner(db: Db, folderId: int, userId: int) {
    exists f :: f in db.folders && f.id == folderId && f.userId == userId
  }

  ghost predicate FlashcardExists(db: Db, flashcardId: int) {
    exists c :: c in db.flashcards && c.id == flashcardId
  }

  ghost predicate HasGrant(db: Db, folderId: int, userId: int, permissionTypes: Option<seq<string>>) {
    exists s :: s in db.shares && IsGrant(s, folderId, userId, permissionTypes)
  }

  /** Reference definition of folder access: the owner, or an existing folder with a qualifying grant. */
  ghost predicate MayAccess(db: Db, folderId: int, userId: int, permissionTypes: Option<seq<string>>) {
    IsOwner(db, folderId, userId) || (HasGrant(db, folderId, userId, permissionTypes) && FolderExists(db, folderId))
  }

  /** The folder with that id if `userId` owns it; nothing otherwise. */
  function VerifyFolderOwnership(db: Db, folderId: int, userId: int): (r: Option<Folder>)
    ensures r.Some? <==> IsOwner(db, folderId, userId)
    ensures r.Some? ==> r.value in db.folders && r.value.id == folderId && r.value.userId == userId
  {
    First(db.folders, (f: Folder) => f.id == folderId && f.userId == userId)
  }

  /** The first accepted share of the folder to the account whose type passes the filter. */
  function FindGrant(shares: seq<Share>, folderId: int, userId: int, permissionTypes: Option<seq<string>>)
    : (r: Option<Share>)
    ensures r.Some? <==> exists s :: s in shares && IsGrant(s, folderId, userId, permissionTypes)
    ensures r.Some? ==> r.value in shares && IsGrant(r.value, folderId, userId, permissionTypes)
  {
    First(shares, (s: Share) => IsGrant(s, folderId, userId, permissionTypes))
  }

  /** Folder access: the owner whatever the filter; otherwise an accepted qualifying share on an
      existing folder. Every denial is 404, so a folder the caller may not see looks absent. */
  function VerifyFolderAccess(db: Db, folderId: int, userId: int, permissionTypes: Option<seq<string>>)
    : (r: Result<Folder>)
    ensures r.Ok? <==> MayAccess(db, folderId, userId, permissionTypes)
    ensures r.Err? ==> r.error == NotFound
    ensures r.Ok? ==> r.value in db.folders && r.value.id == folderId
    ensures IsOwner(db, folderId, userId) ==> r.Ok? && r.value.userId == userId
  {
    match VerifyFolderOwnership(db, folderId, userId)
    case Some(folder) => Ok(folder)
    case None =>
      if FindGrant(db.shares, folderId, userId, permissionTypes).None? then Err(NotFound)
      else match FindFolder(db.folders, folderId)
        case None => Err(NotFound)
        case Some(folder) => Ok(folder)
  }

  /** Flashcard access: 404 for a missing card; the card's creator without any folder check;
      otherwise folder access, whose denial becomes 403. */
  function VerifyFlashcardAccess(db: Db, flashcardId: int, userId: int, permissionTypes: Option<seq<string>>)
    : (r: Result<Flashcard>)
    ensures r == Err(NotFound) <==> !FlashcardExists(db, flashcardId)
    ensures r.Err? ==> r.error == NotFound || r.error == Forbidden
    ensures r.Ok? ==> r.value in db.flashcards && r.value.id == flashcardId
    ensures UniqueFlashcardIds(db.flashcards) ==>
      forall c :: c in db.flashcards && c.id == flashcardId ==>
        (r.Ok? <==> c.userId == userId || MayAccess(db, c.folderId, userId, permissionTypes))
  {
    match FindFlashcard(db.flashcards, flashcardId)
    case None => Err(NotFound)
    case Some(card) =>
      if card.userId == userId then Ok(card)
      else if VerifyFolderAccess(db, card.folderId, userId, permissionTypes).Ok? then Ok(card)
      else Err(Forbidden)
  }

  /** Under the store invariant an account holds at most one accepted share of a folder. */
  lemma AtMostOneGrant(db: Db, s: Share, t: Share, folderId: int, userId: int)
    requires Consistent(db)
    requires s in db.shares && t in db.shares
    requires IsGrant(s, folderId, userId, None) && IsGrant(t, folderId, userId, None)
    ensures s == t
  {
    var a :| a in db.users && s.userId == Some(a.id) && a.email == s.invitationEmail;
    var b :| b in db.users && t.userId == Some(b.id) && b.email == t.invitationEmail;
    var ia :| 0 <= ia < |db.users| && db.users[ia] == a;
    var ib :| 0 <= ib < |db.users| && db.users[ib] == b;
    assert ia == ib;
    var i :| 0 <= i < |db.shares| && db.shares[i] == s;
    var j :| 0 <= j < |db.shares| && db.shares[j] == t;
    assert i == j;
  }

  /** No filter and an empty filter are the same check. */
  lemma EmptyFilterIsNoFilter(db: Db, folderId: int, userId: int)
    ensures VerifyFolderAccess(db, folderId, userId, Some([])) == VerifyFolderAccess(db, folderId, userId, None)
  {
    FirstCongruent(db.shares, (s: Share) => IsGrant(s, folderId, userId, Some([])),
                              (s: Share) => IsGrant(s, folderId, userId, None));
  }

  /** The filters the handlers pass are ordered: an admin-only pass implies an edit-or-admin pass,
      which implies an unfiltered pass. */
  lemma FilterTiers(db: Db, folderId: int, userId: int)
    ensures VerifyFolderAccess(db, folderId, userId, Some(["admin"])).Ok? ==>
            VerifyFolderAccess(db, folderId, userId, Some(EditorRoles)).Ok?
    ensures VerifyFolderAccess(db, folderId, userId, Some(EditorRoles)).Ok? ==>
            VerifyFolderAccess(db, folderId, userId, None).Ok?
  {
    if HasGrant(db, folderId, userId, Some(["admin"])) {
      var s :| s in db.shares && IsGrant(s, folderId, userId, Some(["admin"]));
      assert IsGrant(s, folderId, userId, Some(EditorRoles));
    }
    if HasGrant(db, folderId, userId, Some(EditorRoles)) {
      var s :| s in db.shares && IsGrant(s, folderId, userId, Some(EditorRoles));
      assert IsGrant(s, folderId, userId, None);
    }
  }
}
