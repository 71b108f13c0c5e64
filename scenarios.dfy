/** End-to-end request sequences against a fresh store: the share life cycle as an owner and an
    invited account see it. */
module Scenarios {
  import opened Wrappers
  import opened Records
  import opened Permissions
  import Flashcards
  import FolderShares
  import StudyFolders

  const OwnerAccount := User(1, "owner@example.com")
  const InvitedAccount := User(2, "invited@example.com")

  /** A store with the two accounts and a folder owned by the first one. */
  method Setup() returns (st: Store, folder: Folder)
    ensures fresh(st) && st.Valid()
    ensures st.Snapshot() == Db([OwnerAccount, InvitedAccount], [folder], [], [], [])
    ensures folder.userId == OwnerAccount.id
    ensures st.nextShareId == 1 && st.nextFlashcardId == 1
  {
    st := new Store([OwnerAccount, InvitedAccount], []);
    folder := StudyFolders.CreateFolder(st, "Test Folder", Some("For testing folder sharing"), OwnerAccount);
  }

  /** The same address cannot be invited to the same folder twice. */
  method DuplicateInvitation() returns (first: Result<Share>, second: Result<Share>)
    ensures first.Ok? && !first.value.invitationAccepted && first.value.userId == Some(InvitedAccount.id)
    ensures second == Err(BadRequest)
  {
    var st, folder := Setup();
    assert folder in st.folders;
    first := FolderShares.ShareFolder(st, folder.id, InvitedAccount.email, "view", OwnerAccount);
    assert first.value in st.shares;
    second := FolderShares.ShareFolder(st, folder.id, InvitedAccount.email, "edit", OwnerAccount);
  }

  /** An invitation is accepted once: the second attempt finds no pending invitation. */
  method AcceptTwice() returns (first: Result<Share>, second: Result<Share>)
    ensures first.Ok? && first.value.invitationAccepted && first.value.userId == Some(InvitedAccount.id)
    ensures second == Err(NotFound)
  {
    var st, folder := Setup();
    assert folder in st.folders;
    var share := FolderShares.ShareFolder(st, folder.id, InvitedAccount.email, "view", OwnerAccount);
    assert share.value in st.shares;
    ghost var pending := st.Snapshot();
    first := FolderShares.AcceptShare(st, share.value.id, InvitedAccount, 0);
    FolderShares.AcceptOnlyOnce(pending, share.value.id, InvitedAccount, 0);
    second := FolderShares.AcceptShare(st, share.value.id, InvitedAccount, 1);
  }

  /** A store where the invited account holds an accepted share of the owner's folder. */
  method SetupShared(permissionType: string) returns (st: Store, folder: Folder, share: Share)
    ensures fresh(st) && st.Valid()
    ensures st.users == [OwnerAccount, InvitedAccount] && st.folders == [folder] && st.shares == [share]
    ensures st.flashcards == [] && st.nextFlashcardId == 1
    ensures folder.userId == OwnerAccount.id
    ensures share.folderId == folder.id && share.permissionType == permissionType
    ensures IsGrant(share, folder.id, InvitedAccount.id, None)
  {
    st, folder := Setup();
    assert folder in st.folders;
    var invited := FolderShares.ShareFolder(st, folder.id, InvitedAccount.email, permissionType, OwnerAccount);
    assert invited.value in st.shares;
    var accepted := FolderShares.AcceptShare(st, invited.value.id, InvitedAccount, 0);
    share := accepted.value;
  }

  /** Revoking an accepted share takes effect on the very next request. */
  method RevokedShareLosesAccess() returns (before: Result<seq<Flashcard>>, after: Result<seq<Flashcard>>)
    ensures before.Ok? && after == Err(NotFound)
  {
    var st, folder, share := SetupShared("view");
    assert share in st.shares;
    before := Flashcards.GetFlashcards(st.Snapshot(), folder.id, InvitedAccount);
    FolderShares.RevocationIsImmediate(st.Snapshot(), share.id, InvitedAccount);
    var revoked := FolderShares.DeleteShare(st, share.id, OwnerAccount);
    after := Flashcards.GetFlashcards(st.Snapshot(), folder.id, InvitedAccount);
  }

  /** A view share reads the folder's flashcards but cannot add one. */
  method ViewGrantCannotWrite() returns (listing: Result<seq<Flashcard>>, created: Result<Flashcard>)
    ensures listing.Ok? && created == Err(Forbidden)
  {
    var st, folder, share := SetupShared("view");
    assert share in st.shares;
    listing := Flashcards.GetFlashcards(st.Snapshot(), folder.id, InvitedAccount);
    created := Flashcards.CreateIndividualFlashcard(st, "Q", "A", folder.id, InvitedAccount);
  }

  /** An edit share changes a flashcard the owner created. */
  method EditGrantUpdates() returns (updated: Result<Flashcard>)
    ensures updated.Ok? && updated.value.answer == "Updated answer" && updated.value.userId == OwnerAccount.id
  {
    var st, folder, share := SetupShared("edit");
    assert share in st.shares;
    var card := Flashcards.CreateIndividualFlashcard(st, "Q", "A", folder.id, OwnerAccount);
    assert card.value in st.flashcards && folder in st.folders;
    updated := Flashcards.UpdateFlashcard(st, card.value.id, None, Some("Updated answer"), None, InvitedAccount);
  }

  /** An edit share cannot delete a flashcard of the folder. */
  method EditGrantCannotDelete() returns (deleted: Result<()>)
    ensures deleted == Err(Forbidden)
  {
    var st, folder, share := SetupShared("edit");
    assert share in st.shares;
    var card := Flashcards.CreateIndividualFlashcard(st, "Q", "A", folder.id, OwnerAccount);
    assert card.value in st.flashcards && folder in st.folders;
    deleted := Flashcards.DeleteFlashcard(st, card.value.id, InvitedAccount);
  }
}
