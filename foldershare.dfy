/** The share lifecycle: the owner invites an e-mail address (pending), the account with that
    address accepts once (accepted), the owner changes the permission type or revokes the share. */
module FolderShares {
  import opened Wrappers
  import opened Tables
  import opened Records
  import opened Permissions
  import Flashcards

  /** Some share of the folder was already issued to that address. */
  ghost predicate InvitationExists(db: Db, folderId: int, email: string) {
    exists s :: s in db.shares && s.folderId == folderId && s.invitationEmail == email
  }

  function FindInvitation(shares: seq<Share>, folderId: int, email: string): (r: Option<Share>)
    ensures r.Some? <==> exists s :: s in shares && s.folderId == folderId && s.invitationEmail == email
  {
    First(shares, (s: Share) => s.folderId == folderId && s.invitationEmail == email)
  }

  /** A share with that id, issued to that address and not yet accepted. */
  predicate IsPendingFor(s: Share, shareId: int, email: string) {
    s.id == shareId && s.invitationEmail == email && !s.invitationAccepted
  }

  function FindPendingInvitation(shares: seq<Share>, shareId: int, email: string): (r: Option<Share>)
    ensures r.Some? <==> exists s :: s in shares && IsPendingFor(s, shareId, email)
    ensures r.Some? ==> r.value in shares && IsPendingFor(r.value, shareId, email)
  {
    First(shares, (s: Share) => IsPendingFor(s, shareId, email))
  }

  /** The share row accepting turns `s` into. */
  function Accepted(s: Share, caller: User, now: int): (r: Share)
    ensures r.invitationAccepted && r.userId == Some(caller.id) && r.updatedAt == Some(now)
    ensures r.id == s.id && r.folderId == s.folderId && r.invitationEmail == s.invitationEmail
    ensures r.permissionType == s.permissionType
  {
    s.(userId := Some(caller.id), invitationAccepted := true, updatedAt := Some(now))
  }

  // The invariant across each transition.

  lemma ConsistentAfterInvite(db: Db, share: Share)
    requires Consistent(db)
    requires forall s :: s in db.shares ==> s.id != share.id
    requires !InvitationExists(db, share.folderId, share.invitationEmail) && !share.invitationAccepted
    ensures Consistent(db.(shares := db.shares + [share]))
  {
  }

  lemma ConsistentAfterRewrite(db: Db, before: Share, share: Share)
    requires Consistent(db) && before in db.shares && before.id == share.id
    requires before.folderId == share.folderId && before.invitationEmail == share.invitationEmail
    requires share.invitationAccepted ==>
      (before.invitationAccepted && share.userId == before.userId)
      || (exists u :: u in db.users && share.userId == Some(u.id) && u.email == share.invitationEmail)
    ensures Consistent(db.(shares := ReplaceShare(db.shares, share)))
  {
    var r := ReplaceShare(db.shares, share);
    forall i | 0 <= i < |r| && r[i] == share
      ensures db.shares[i] == before
    {
      var k :| 0 <= k < |db.shares| && db.shares[k] == before;
      assert db.shares[i].id == share.id;
    }
  }

  lemma ConsistentAfterRevoke(db: Db, shareId: int)
    requires Consistent(db)
    ensures Consistent(db.(shares := WithoutShare(db.shares, shareId)))
  {
  }

  /** Listing a folder's shares: the owner only (else 404), and exactly the folder's shares. */
  function GetFolderShares(db: Db, folderId: int, caller: User): (r: Result<seq<Share>>)
    ensures r.Ok? <==> IsOwner(db, folderId, caller.id)
    ensures r.Err? ==> r.error == NotFound
    ensures r.Ok? ==> forall s :: s in r.value <==> s in db.shares && s.folderId == folderId
    ensures r.Ok? ==> forall s :: s in db.shares ==>
      multiset(r.value)[s] == if s.folderId == folderId then multiset(db.shares)[s] else 0
  {
    if VerifyFolderOwnership(db, folderId, caller.id).None? then Err(NotFound)
    else
      var ofFolder := (s: Share) => s.folderId == folderId;
      FilterCount(db.shares, ofFolder);
      Ok(Filter(db.shares, ofFolder))
  }

  /** Viewing one share: 404 if missing; the folder owner or the share's account may see it, anyone
      else gets 403. A share whose folder is gone makes the handler fail on the missing folder (500). */
  function GetShare(db: Db, shareId: int, caller: User): (r: Result<Share>)
    ensures r == Err(NotFound) <==> FindShare(db.shares, shareId).None?
    ensures r.Ok? ==> r.value in db.shares && r.value.id == shareId
    ensures FindShare(db.shares, shareId).Some? ==>
      var s := FindShare(db.shares, shareId).value;
      && (r == Err(Internal) <==> !FolderExists(db, s.folderId))
      && (UniqueFolderIds(db.folders) ==>
            (r.Ok? <==> IsOwner(db, s.folderId, caller.id)
                        || (FolderExists(db, s.folderId) && s.userId == Some(caller.id))))
      && (r.Err? ==> r.error != BadRequest)
  {
    match FindShare(db.shares, shareId)
    case None => Err(NotFound)
    case Some(share) =>
      match FindFolder(db.folders, share.folderId)
      case None => Err(Internal)
      case Some(folder) =>
        if folder.userId != caller.id && share.userId != Some(caller.id) then Err(Forbidden)
        else Ok(share)
  }

  /** Inviting an address: 404 unless the caller owns the folder, 400 if the address was already
      invited to it; otherwise one new pending share, linked to the account with that address if any. */
  method ShareFolder(st: Store, folderId: int, userEmail: string, permissionType: string, caller: User)
    returns (r: Result<Share>)
    requires st.Valid()
    modifies st
    ensures st.Valid()
    ensures !IsOwner(old(st.Snapshot()), folderId, caller.id) ==> r == Err(NotFound)
    ensures IsOwner(old(st.Snapshot()), folderId, caller.id) && InvitationExists(old(st.Snapshot()), folderId, userEmail) ==>
      r == Err(BadRequest)
    ensures r.Ok? <==> IsOwner(old(st.Snapshot()), folderId, caller.id)
                       && !InvitationExists(old(st.Snapshot()), folderId, userEmail)
    ensures r.Err? ==> unchanged(st)
    ensures r.Ok? ==>
      && r.value.id == old(st.nextShareId)
      && r.value.folderId == folderId
      && r.value.permissionType == permissionType
      && r.value.invitationEmail == userEmail
      && !r.value.invitationAccepted
      && r.value.updatedAt.None?
      && (r.value.userId.None? <==> forall u :: u in old(st.users) ==> u.email != userEmail)
      && (forall u :: u in old(st.users) && u.email == userEmail ==> r.value.userId == Some(u.id))
      && st.shares == old(st.shares) + [r.value]
      && st.Snapshot() == old(st.Snapshot()).(shares := st.shares)
      && st.nextShareId == old(st.nextShareId) + 1
      && st.nextFolderId == old(st.nextFolderId) && st.nextFlashcardId == old(st.nextFlashcardId)
  {
    var db := st.Snapshot();
    var folder := VerifyFolderOwnership(db, folderId, caller.id);
    if folder.None? {
      return Err(NotFound);
    }
    var existingShare := FindInvitation(db.shares, folderId, userEmail);
    if existingShare.Some? {
      return Err(BadRequest);
    }
    var user := FindUserByEmail(db.users, userEmail);
    var newShare;
    if user.Some? {
      newShare := Share(st.nextShareId, folderId, Some(user.value.id), permissionType, userEmail, false, None);
    } else {
      newShare := Share(st.nextShareId, folderId, None, permissionType, userEmail, false, None);
    }
    ConsistentAfterInvite(db, newShare);
    st.shares := st.shares + [newShare];
    st.nextShareId := st.nextShareId + 1;
    r := Ok(newShare);
  }

  /** Changing a share's permission type: 404 if missing, 403 unless the caller owns its folder.
      Only the type (when supplied) and the update time change. */
  method UpdateShare(st: Store, shareId: int, permissionType: Option<string>, caller: User, now: int)
    returns (r: Result<Share>)
    requires st.Valid()
    modifies st
    ensures st.Valid()
    ensures r.Err? ==> unchanged(st)
    ensures FindShare(old(st.shares), shareId).None? ==> r == Err(NotFound)
    ensures FindShare(old(st.shares), shareId).Some? ==>
      var db, s := old(st.Snapshot()), FindShare(old(st.shares), shareId).value;
      && (!FolderExists(db, s.folderId) ==> r == Err(Internal))
      && (FolderExists(db, s.folderId) && !IsOwner(db, s.folderId, caller.id) ==> r == Err(Forbidden))
      && (IsOwner(db, s.folderId, caller.id) ==>
            r == Ok(s.(permissionType := permissionType.GetOr(s.permissionType), updatedAt := Some(now))))
    ensures r.Ok? ==>
      && st.shares == ReplaceShare(old(st.shares), r.value)
      && st.Snapshot() == old(st.Snapshot()).(shares := st.shares)
      && st.nextShareId == old(st.nextShareId)
      && st.nextFolderId == old(st.nextFolderId) && st.nextFlashcardId == old(st.nextFlashcardId)
  {
    var db := st.Snapshot();
    var share := FindShare(db.shares, shareId);
    if share.None? {
      return Err(NotFound);
    }
    var folder := FindFolder(db.folders, share.value.folderId);
    if folder.None? {
      return Err(Internal);
    }
    if folder.value.userId != caller.id {
      return Err(Forbidden);
    }
    var updated := share.value;
    if permissionType.Some? {
      updated := updated.(permissionType := permissionType.value);
    }
    updated := updated.(updatedAt := Some(now));
    ConsistentAfterRewrite(db, share.value, updated);
    st.shares := ReplaceShare(st.shares, updated);
    r := Ok(updated);
  }

  /** Revoking a share: 404 if missing, 403 unless the caller owns its folder; the row is removed. */
  method DeleteShare(st: Store, shareId: int, caller: User) returns (r: Result<()>)
    requires st.Valid()
    modifies st
    ensures st.Valid()
    ensures r.Err? ==> unchanged(st)
    ensures FindShare(old(st.shares), shareId).None? ==> r == Err(NotFound)
    ensures FindShare(old(st.shares), shareId).Some? ==>
      var db, s := old(st.Snapshot()), FindShare(old(st.shares), shareId).value;
      r == if !FolderExists(db, s.folderId) then Err(Internal)
           else if IsOwner(db, s.folderId, caller.id) then Ok(())
           else Err(Forbidden)
    ensures r.Ok? ==>
      && st.shares == WithoutShare(old(st.shares), shareId)
      && st.Snapshot() == old(st.Snapshot()).(shares := st.shares)
      && st.nextShareId == old(st.nextShareId)
      && st.nextFolderId == old(st.nextFolderId) && st.nextFlashcardId == old(st.nextFlashcardId)
  {
    var db := st.Snapshot();
    var share := FindShare(db.shares, shareId);
    if share.None? {
      return Err(NotFound);
    }
    var folder := FindFolder(db.folders, share.value.folderId);
    if folder.None? {
      return Err(Internal);
    }
    if folder.value.userId != caller.id {
      return Err(Forbidden);
    }
    ConsistentAfterRevoke(db, shareId);
    st.shares := WithoutShare(st.shares, shareId);
    r := Ok(());
  }

  /** Accepting an invitation: 404 unless a share with that id was issued to the caller's address and
      is still pending; it is then linked to the caller and accepted. */
  method AcceptShare(st: Store, shareId: int, caller: User, now: int) returns (r: Result<Share>)
    requires st.Valid() && caller in st.users
    modifies st
    ensures st.Valid()
    ensures r == Err(NotFound) <==> FindPendingInvitation(old(st.shares), shareId, caller.email).None?
    ensures r.Err? ==> r.error == NotFound && unchanged(st)
    ensures r.Ok? ==>
      && FindShare(old(st.shares), shareId).Some?
      && r.value == Accepted(FindShare(old(st.shares), shareId).value, caller, now)
      && st.shares == ReplaceShare(old(st.shares), r.value)
      && st.Snapshot() == old(st.Snapshot()).(shares := st.shares)
      && st.nextShareId == old(st.nextShareId)
      && st.nextFolderId == old(st.nextFolderId) && st.nextFlashcardId == old(st.nextFlashcardId)
  {
    var db := st.Snapshot();
    var share := FindPendingInvitation(db.shares, shareId, caller.email);
    if share.None? {
      return Err(NotFound);
    }
    var updated := Accepted(share.value, caller, now);
    ConsistentAfterRewrite(db, share.value, updated);
    st.shares := ReplaceShare(st.shares, updated);
    r := Ok(updated);
  }

  /** An invitation can be accepted once: after acceptance no pending row with that id remains. */
  lemma AcceptOnlyOnce(db: Db, shareId: int, caller: User, now: int)
    requires UniqueShareIds(db.shares)
    requires FindPendingInvitation(db.shares, shareId, caller.email).Some?
    ensures var s := FindShare(db.shares, shareId).value;
      FindPendingInvitation(ReplaceShare(db.shares, Accepted(s, caller, now)), shareId, caller.email).None?
  {
  }

  /** Revocation is immediate: once the accepted share of a non-owner is deleted, listing the folder's
      flashcards gives that account 404, and so does every folder-access check. */
  lemma RevocationIsImmediate(db: Db, shareId: int, grantee: User)
    requires Consistent(db)
    requires FindShare(db.shares, shareId).Some?
    requires var s := FindShare(db.shares, shareId).value;
      IsGrant(s, s.folderId, grantee.id, None) && !IsOwner(db, s.folderId, grantee.id)
    ensures var s, after := FindShare(db.shares, shareId).value, db.(shares := WithoutShare(db.shares, shareId));
      && Flashcards.GetFlashcards(after, s.folderId, grantee) == Err(NotFound)
      && forall types :: VerifyFolderAccess(after, s.folderId, grantee.id, types) == Err(NotFound)
  {
    var s := FindShare(db.shares, shareId).value;
    var after := db.(shares := WithoutShare(db.shares, shareId));
    forall types, t | t in after.shares && IsGrant(t, s.folderId, grantee.id, types)
      ensures false
    {
      AtMostOneGrant(db, s, t, s.folderId, grantee.id);
    }
  }
}
