/** The flashcard handlers. Reading needs ownership or any accepted share, creating and
    editing an accepted `edit` or `admin` share, deleting an accepted `admin` share. */
module Flashcards {
  import opened Wrappers
  import opened Tables
  import opened Records
  import opened Permissions

  /** One item of the text generator's output. */
  datatype GeneratedCard = GeneratedCard(question: string, answer: string)

  /** Edit rights, as the create, update and move checks grant them. */
  ghost predicate CanEdit(db: Db, folderId: int, userId: int) {
    MayAccess(db, folderId, userId, Some(EditorRoles))
  }

  /** An accepted share whose type equals `"admin"`. */
  predicate IsAdminGrant(s: Share, folderId: int, userId: int) {
    IsGrant(s, folderId, userId, None) && s.permissionType == "admin"
  }

  /** Delete rights: the owner, or an existing folder with an accepted admin share. */
  ghost predicate CanAdminister(db: Db, folderId: int, userId: int) {
    || IsOwner(db, folderId, userId)
    || (FolderExists(db, folderId) && exists s :: s in db.shares && IsAdminGrant(s, folderId, userId))
  }

  /** The first accepted admin share of the folder to the account. */
  function FindAdminGrant(shares: seq<Share>, folderId: int, userId: int): (r: Option<Share>)
    ensures r.Some? <==> exists s :: s in shares && IsAdminGrant(s, folderId, userId)
  {
    First(shares, (s: Share) => IsAdminGrant(s, folderId, userId))
  }

  /** The edit check the create, update and move handlers write out on a stored folder: its owner,
      or an accepted `edit` or `admin` share. It decides `CanEdit` exactly. */
  function EditPermission(db: Db, folder: Folder, userId: int): (b: bool)
    requires UniqueFolderIds(db.folders) && folder in db.folders
    ensures b <==> CanEdit(db, folder.id, userId)
  {
    assert FolderExists(db, folder.id);
    folder.userId == userId || FindGrant(db.shares, folder.id, userId, Some(EditorRoles)).Some?
  }

  /** The delete handler's check on a stored folder: its owner, or an accepted `admin` share.
      It decides `CanAdminister` exactly. */
  function AdminPermission(db: Db, folder: Folder, userId: int): (b: bool)
    requires UniqueFolderIds(db.folders) && folder in db.folders
    ensures b <==> CanAdminister(db, folder.id, userId)
  {
    assert FolderExists(db, folder.id);
    folder.userId == userId || FindAdminGrant(db.shares, folder.id, userId).Some?
  }

  function InFolder(folderId: int): Flashcard -> bool {
    (c: Flashcard) => c.folderId == folderId
  }

  /** The flashcards of one folder, each as often as the table holds it, in sequence order. */
  function FolderFlashcards(cards: seq<Flashcard>, folderId: int): (r: seq<Flashcard>)
    ensures forall c :: c in r <==> c in cards && c.folderId == folderId
    ensures forall c :: c in cards ==>
      multiset(r)[c] == if c.folderId == folderId then multiset(cards)[c] else 0
  {
    FilterCount(cards, InFolder(folderId));
    Filter(cards, InFolder(folderId))
  }

  /** Listing a folder's flashcards: the owner or any accepted sharee, whatever the type;
      everyone else gets 404. The check is written out in the handler and agrees with the evaluator. */
  function GetFlashcards(db: Db, folderId: int, caller: User): (r: Result<seq<Flashcard>>)
    ensures r.Ok? <==> MayAccess(db, folderId, caller.id, None)
    ensures r.Ok? <==> VerifyFolderAccess(db, folderId, caller.id, None).Ok?
    ensures r.Err? ==> r.error == NotFound
    ensures r.Ok? ==> forall c :: c in r.value <==> c in db.flashcards && c.folderId == folderId
    ensures r.Ok? ==> forall c :: c in db.flashcards ==>
      multiset(r.value)[c] == if c.folderId == folderId then multiset(db.flashcards)[c] else 0
  {
    if VerifyFolderOwnership(db, folderId, caller.id).None? &&
       (FindGrant(db.shares, folderId, caller.id, None).None? || FindFolder(db.folders, folderId).None?)
    then Err(NotFound)
    else Ok(FolderFlashcards(db.flashcards, folderId))
  }

  /** Adding flashcards to a folder adds exactly those to its listing, at the end. */
  lemma ListingAfterCreate(db: Db, folderId: int, caller: User, added: seq<Flashcard>)
    requires forall c :: c in added ==> c.folderId == folderId
    requires GetFlashcards(db, folderId, caller).Ok?
    ensures GetFlashcards(db.(flashcards := db.flashcards + added), folderId, caller)
         == Ok(GetFlashcards(db, folderId, caller).value + added)
  {
    FilterAppend(db.flashcards, added, InFolder(folderId));
    FilterKeepsAll(added, InFolder(folderId));
  }

  /** The insert loop of `create_flashcards`: one new row per generated item, in order, numbered
      from the next flashcard id, in the folder and created by the caller. */
  method AddGenerated(st: Store, folderId: int, generated: seq<GeneratedCard>, caller: User)
    returns (created: seq<Flashcard>)
    requires st.Valid()
    modifies st
    ensures st.Valid()
    ensures |created| == |generated|
    ensures forall i :: 0 <= i < |generated| ==>
      created[i] == Flashcard(old(st.nextFlashcardId) + i, generated[i].question,
                              generated[i].answer, folderId, caller.id)
    ensures st.flashcards == old(st.flashcards) + created
    ensures st.Snapshot() == old(st.Snapshot()).(flashcards := st.flashcards)
    ensures st.nextFlashcardId == old(st.nextFlashcardId) + |generated|
    ensures st.nextFolderId == old(st.nextFolderId) && st.nextShareId == old(st.nextShareId)
  {
    created := [];
    var i := 0;
    while i < |generated|
      invariant 0 <= i <= |generated| && |created| == i
      invariant forall k :: 0 <= k < i ==>
        created[k] == Flashcard(old(st.nextFlashcardId) + k, generated[k].question,
                                generated[k].answer, folderId, caller.id)
      invariant st.flashcards == old(st.flashcards) + created
      invariant st.Snapshot() == old(st.Snapshot()).(flashcards := st.flashcards)
      invariant st.nextFlashcardId == old(st.nextFlashcardId) + i
      invariant st.nextFolderId == old(st.nextFolderId) && st.nextShareId == old(st.nextShareId)
      invariant st.Valid()
    {
      var card := Flashcard(st.nextFlashcardId, generated[i].question, generated[i].answer, folderId, caller.id);
      FreshFlashcardKeepsIdsUnique(st.flashcards, card);
      ConsistentWithFlashcards(st.Snapshot(), st.flashcards + [card]);
      st.flashcards := st.flashcards + [card];
      st.nextFlashcardId := st.nextFlashcardId + 1;
      created := created + [card];
      i := i + 1;
    }
  }

  /** Generating flashcards: a non-owner needs an accepted edit or admin share, else 404.
      One card per generated item, in order, in the folder and created by the caller. */
  method CreateFlashcards(st: Store, folderId: int, generated: seq<GeneratedCard>, caller: User)
    returns (r: Result<seq<Flashcard>>)
    requires st.Valid()
    modifies st
    ensures st.Valid()
    ensures r.Ok? <==> CanEdit(old(st.Snapshot()), folderId, caller.id)
    ensures r.Err? ==> r.error == NotFound && unchanged(st)
    ensures r.Ok? ==>
      && |r.value| == |generated|
      && (forall i :: 0 <= i < |generated| ==>
            r.value[i] == Flashcard(old(st.nextFlashcardId) + i, generated[i].question,
                                    generated[i].answer, folderId, caller.id))
      && st.flashcards == old(st.flashcards) + r.value
      && st.Snapshot() == old(st.Snapshot()).(flashcards := st.flashcards)
      && st.nextFlashcardId == old(st.nextFlashcardId) + |generated|
      && st.nextFolderId == old(st.nextFolderId) && st.nextShareId == old(st.nextShareId)
  {
    var db := st.Snapshot();
    var folder := VerifyFolderOwnership(db, folderId, caller.id);
    if folder.None? {
      var sharedAccess := FindGrant(db.shares, folderId, caller.id, Some(EditorRoles));
      if sharedAccess.None? {
        return Err(NotFound);
      }
      folder := FindFolder(db.folders, folderId);
      if folder.None? {
        return Err(NotFound);
      }
    }
    var created := AddGenerated(st, folderId, generated, caller);
    r := Ok(created);
  }

  /** Reading one flashcard, as the handler is written: 404 if missing, the card to its creator,
      the card to an accepted sharee of its folder, 403 to everyone else, the folder owner included. */
  function GetIndividualFlashcard(db: Db, flashcardId: int, caller: User): (r: Result<Flashcard>)
    ensures r == Err(NotFound) <==> !FlashcardExists(db, flashcardId)
    ensures r.Err? ==> r.error == NotFound || r.error == Forbidden
    ensures r.Ok? ==> r.value in db.flashcards && r.value.id == flashcardId
    ensures UniqueFlashcardIds(db.flashcards) ==>
      forall c :: c in db.flashcards && c.id == flashcardId ==>
        (r.Ok? <==> c.userId == caller.id || HasGrant(db, c.folderId, caller.id, None))
  {
    match FindFlashcard(db.flashcards, flashcardId)
    case None => Err(NotFound)
    case Some(card) =>
      if card.userId == caller.id then Ok(card)
      else if FindGrant(db.shares, card.folderId, caller.id, None).Some? then Ok(card)
      else Err(Forbidden)
  }

  /** The handler as written refuses a folder's owner a card that a collaborator created in it,
      although the same owner may list, update and delete that card. */
  lemma OwnerRefusedCollaboratorCard(db: Db, card: Flashcard, owner: User)
    requires KeysUnique(db)
    requires card in db.flashcards && card.userId != owner.id
    requires IsOwner(db, card.folderId, owner.id) && !HasGrant(db, card.folderId, owner.id, None)
    ensures GetIndividualFlashcard(db, card.id, owner) == Err(Forbidden)
    ensures GetFlashcards(db, card.folderId, owner).Ok? && card in GetFlashcards(db, card.folderId, owner).value
    ensures VerifyFlashcardAccess(db, card.id, owner.id, None).Ok?
  {
  }

  /** The same situation on a concrete store: a collaborator with an accepted edit share
      created card 100 in folder 10 of account 1. */
  lemma OwnerRefusedExample()
    ensures var db := Db([User(1, "owner@example.com"), User(2, "collaborator@example.com")],
                         [Folder(10, "Biology", None, 1, None)],
                         [Flashcard(100, "Q", "A", 10, 2)],
                         [],
                         [Share(7, 10, Some(2), "edit", "collaborator@example.com", true, None)]);
            Consistent(db) && GetIndividualFlashcard(db, 100, User(1, "owner@example.com")) == Err(Forbidden)
  {
    var db := Db([User(1, "owner@example.com"), User(2, "collaborator@example.com")],
                 [Folder(10, "Biology", None, 1, None)],
                 [Flashcard(100, "Q", "A", 10, 2)],
                 [],
                 [Share(7, 10, Some(2), "edit", "collaborator@example.com", true, None)]);
    assert db.users[1] in db.users;
    assert !HasGrant(db, 10, 1, None);
    assert GetIndividualFlashcard(db, 100, User(1, "owner@example.com")) == Err(Forbidden);
  }

  /** Reading one flashcard as intended: the folder owner is admitted like the card's creator. */
  function GetIndividualFlashcardCorrected(db: Db, flashcardId: int, caller: User): (r: Result<Flashcard>)
    ensures r == Err(NotFound) <==> !FlashcardExists(db, flashcardId)
    ensures r.Err? ==> r.error == NotFound || r.error == Forbidden
    ensures r.Ok? ==> r.value in db.flashcards && r.value.id == flashcardId
    ensures UniqueFlashcardIds(db.flashcards) ==>
      forall c :: c in db.flashcards && c.id == flashcardId ==>
        (r.Ok? <==> c.userId == caller.id || IsOwner(db, c.folderId, caller.id)
                    || HasGrant(db, c.folderId, caller.id, None))
  {
    match FindFlashcard(db.flashcards, flashcardId)
    case None => Err(NotFound)
    case Some(card) =>
      if card.userId == caller.id || VerifyFolderOwnership(db, card.folderId, caller.id).Some? then Ok(card)
      else if FindGrant(db.shares, card.folderId, caller.id, None).Some? then Ok(card)
      else Err(Forbidden)
  }

  /** For a card whose folder exists, the corrected handler and the evaluator's flashcard check agree. */
  lemma CorrectedAgreesWithEvaluator(db: Db, flashcardId: int, caller: User)
    requires UniqueFlashcardIds(db.flashcards)
    requires forall c :: c in db.flashcards ==> FolderExists(db, c.folderId)
    ensures GetIndividualFlashcardCorrected(db, flashcardId, caller)
         == VerifyFlashcardAccess(db, flashcardId, caller.id, None)
  {
  }

  /** The flashcards the caller created, each as often as the table holds it. */
  function OwnFlashcards(db: Db, caller: User): (r: seq<Flashcard>)
    ensures forall c :: c in r <==> c in db.flashcards && c.userId == caller.id
    ensures forall c :: c in db.flashcards ==>
      multiset(r)[c] == if c.userId == caller.id then multiset(db.flashcards)[c] else 0
  {
    var createdByCaller := (c: Flashcard) => c.userId == caller.id;
    FilterCount(db.flashcards, createdByCaller);
    Filter(db.flashcards, createdByCaller)
  }

  /** The flashcards in folders of which the caller holds an accepted share, each as often as the
      table holds it. */
  function SharedFlashcards(db: Db, caller: User): (r: seq<Flashcard>)
    ensures forall c :: c in r <==> c in db.flashcards && HasGrant(db, c.folderId, caller.id, None)
    ensures forall c :: c in db.flashcards ==>
      multiset(r)[c] == if HasGrant(db, c.folderId, caller.id, None) then multiset(db.flashcards)[c] else 0
  {
    var sharedFolderIds := set s | s in db.shares && s.userId == Some(caller.id) && s.invitationAccepted :: s.folderId;
    var inSharedFolder := (c: Flashcard) => c.folderId in sharedFolderIds;
    FilterCount(db.flashcards, inSharedFolder);
    assert forall c :: c in db.flashcards ==>
      (c.folderId in sharedFolderIds <==> HasGrant(db, c.folderId, caller.id, None)) by {
      forall c | c in db.flashcards && c.folderId in sharedFolderIds
        ensures HasGrant(db, c.folderId, caller.id, None)
      {
        var s :| s in db.shares && s.userId == Some(caller.id) && s.invitationAccepted && s.folderId == c.folderId;
        assert IsGrant(s, c.folderId, caller.id, None);
      }
    }
    Filter(db.flashcards, inSharedFolder)
  }

  /** Every flashcard the caller created, followed by every flashcard in a folder shared with the
      caller and accepted: a list concatenation, so the caller's own cards come first and a card in
      both parts appears twice. */
  function GetAllFlashcards(db: Db, caller: User): (r: seq<Flashcard>)
    ensures forall c :: c in r <==>
      c in db.flashcards && (c.userId == caller.id || HasGrant(db, c.folderId, caller.id, None))
    ensures forall c :: c in db.flashcards ==>
      multiset(r)[c] == (if c.userId == caller.id then multiset(db.flashcards)[c] else 0)
                        + (if HasGrant(db, c.folderId, caller.id, None) then multiset(db.flashcards)[c] else 0)
    ensures exists k :: 0 <= k <= |r| && (forall c :: c in r[..k] ==> c.userId == caller.id)
                        && (forall c :: c in r[k..] ==> HasGrant(db, c.folderId, caller.id, None))
  {
    var own, shared := OwnFlashcards(db, caller), SharedFlashcards(db, caller);
    assert (own + shared)[..|own|] == own && (own + shared)[|own|..] == shared;
    own + shared
  }

  /** Creating one flashcard: 404 if the folder is missing, 403 to a non-owner without an
      accepted edit or admin share; otherwise one new card created by the caller. */
  method CreateIndividualFlashcard(st: Store, question: string, answer: string, folderId: int, caller: User)
    returns (r: Result<Flashcard>)
    requires st.Valid()
    modifies st
    ensures st.Valid()
    ensures !FolderExists(old(st.Snapshot()), folderId) ==> r == Err(NotFound)
    ensures FolderExists(old(st.Snapshot()), folderId) && !CanEdit(old(st.Snapshot()), folderId, caller.id) ==>
      r == Err(Forbidden)
    ensures r.Ok? <==> CanEdit(old(st.Snapshot()), folderId, caller.id)
    ensures r.Err? ==> unchanged(st)
    ensures r.Ok? ==>
      && r.value == Flashcard(old(st.nextFlashcardId), question, answer, folderId, caller.id)
      && st.flashcards == old(st.flashcards) + [r.value]
      && st.Snapshot() == old(st.Snapshot()).(flashcards := st.flashcards)
      && st.nextFlashcardId == old(st.nextFlashcardId) + 1
      && st.nextFolderId == old(st.nextFolderId) && st.nextShareId == old(st.nextShareId)
  {
    var db := st.Snapshot();
    var folder := FindFolder(db.folders, folderId);
    if folder.None? {
      return Err(NotFound);
    }
    if !EditPermission(db, folder.value, caller.id) {
      return Err(Forbidden);
    }
    var card := Flashcard(st.nextFlashcardId, question, answer, folderId, caller.id);
    st.flashcards := st.flashcards + [card];
    st.nextFlashcardId := st.nextFlashcardId + 1;
    r := Ok(card);
  }

  /** Updating a flashcard: 404 if it or its folder is missing, 403 without edit rights on its folder;
      a move also needs the target folder (404) and edit rights on it (403). Only supplied fields
      change, and on any error nothing is committed. */
  method UpdateFlashcard(st: Store, id: int, question: Option<string>, answer: Option<string>,
                         targetFolderId: Option<int>, caller: User)
    returns (r: Result<Flashcard>)
    requires st.Valid()
    modifies st
    ensures st.Valid()
    ensures r.Err? ==> unchanged(st)
    ensures FindFlashcard(old(st.flashcards), id).None? ==> r == Err(NotFound)
    ensures FindFlashcard(old(st.flashcards), id).Some? ==>
      var db, c := old(st.Snapshot()), FindFlashcard(old(st.flashcards), id).value;
      && (!FolderExists(db, c.folderId) ==> r == Err(NotFound))
      && (FolderExists(db, c.folderId) && !CanEdit(db, c.folderId, caller.id) ==> r == Err(Forbidden))
      && (CanEdit(db, c.folderId, caller.id) && targetFolderId.Some? && !FolderExists(db, targetFolderId.value) ==>
            r == Err(NotFound))
      && ((CanEdit(db, c.folderId, caller.id) && targetFolderId.Some? && FolderExists(db, targetFolderId.value)
           && !CanEdit(db, targetFolderId.value, caller.id)) ==> r == Err(Forbidden))
      && (r.Ok? <==> CanEdit(db, c.folderId, caller.id)
                     && (targetFolderId.None? || CanEdit(db, targetFolderId.value, caller.id)))
      && (r.Ok? ==> r.value == Flashcard(c.id, question.GetOr(c.question), answer.GetOr(c.answer),
                                         targetFolderId.GetOr(c.folderId), c.userId))
    ensures r.Ok? ==>
      && st.flashcards == ReplaceFlashcard(old(st.flashcards), r.value)
      && st.Snapshot() == old(st.Snapshot()).(flashcards := st.flashcards)
      && st.nextFlashcardId == old(st.nextFlashcardId)
      && st.nextFolderId == old(st.nextFolderId) && st.nextShareId == old(st.nextShareId)
  {
    var db := st.Snapshot();
    var existing := FindFlashcard(db.flashcards, id);
    if existing.None? {
      return Err(NotFound);
    }
    var card := existing.value;
    var currentFolder := FindFolder(db.folders, card.folderId);
    if currentFolder.None? {
      return Err(NotFound);
    }
    if !EditPermission(db, currentFolder.value, caller.id) {
      return Err(Forbidden);
    }
    if question.Some? {
      card := card.(question := question.value);
    }
    if answer.Some? {
      card := card.(answer := answer.value);
    }
    if targetFolderId.Some? {
      var targetFolder := FindFolder(db.folders, targetFolderId.value);
      if targetFolder.None? {
        return Err(NotFound);
      }
      if !EditPermission(db, targetFolder.value, caller.id) {
        return Err(Forbidden);
      }
      card := card.(folderId := targetFolderId.value);
    }
    ConsistentWithFlashcards(db, ReplaceFlashcard(db.flashcards, card));
    st.flashcards := ReplaceFlashcard(st.flashcards, card);
    r := Ok(card);
  }

  /** Deleting a flashcard: 404 if it or its folder is missing; the folder owner or an accepted
      admin share may delete it, everyone else gets 403. */
  method DeleteFlashcard(st: Store, id: int, caller: User) returns (r: Result<()>)
    requires st.Valid()
    modifies st
    ensures st.Valid()
    ensures r.Err? ==> unchanged(st)
    ensures FindFlashcard(old(st.flashcards), id).None? ==> r == Err(NotFound)
    ensures FindFlashcard(old(st.flashcards), id).Some? ==>
      var db, c := old(st.Snapshot()), FindFlashcard(old(st.flashcards), id).value;
      r == if !FolderExists(db, c.folderId) then Err(NotFound)
           else if CanAdminister(db, c.folderId, caller.id) then Ok(())
           else Err(Forbidden)
    ensures r.Ok? ==>
      && st.flashcards == WithoutFlashcard(old(st.flashcards), id)
      && st.Snapshot() == old(st.Snapshot()).(flashcards := st.flashcards)
      && st.nextFlashcardId == old(st.nextFlashcardId)
      && st.nextFolderId == old(st.nextFolderId) && st.nextShareId == old(st.nextShareId)
  {
    var db := st.Snapshot();
    var flashcard := FindFlashcard(db.flashcards, id);
    if flashcard.None? {
      return Err(NotFound);
    }
    var folder := FindFolder(db.folders, flashcard.value.folderId);
    if folder.None? {
      return Err(NotFound);
    }
    if !AdminPermission(db, folder.value, caller.id) {
      return Err(Forbidden);
    }
    ConsistentWithFlashcards(db, WithoutFlashcard(db.flashcards, id));
    st.flashcards := WithoutFlashcard(st.flashcards, id);
    r := Ok(());
  }

  /** After a delete, reading that card gives 404. */
  lemma DeletedFlashcardIsGone(db: Db, id: int, caller: User)
    ensures GetIndividualFlashcardCorrected(db.(flashcards := WithoutFlashcard(db.flashcards, id)), id, caller)
         == Err(NotFound)
    ensures GetIndividualFlashcard(db.(flashcards := WithoutFlashcard(db.flashcards, id)), id, caller)
         == Err(NotFound)
  {
  }

  /** An accepted edit share lets a non-owner edit but never delete: the store holds no second
      grant of that folder to that account. */
  lemma EditGrantCannotDelete(db: Db, folderId: int, userId: int, s: Share)
    requires Consistent(db)
    requires s in db.shares && IsGrant(s, folderId, userId, None) && s.permissionType == "edit"
    requires !IsOwner(db, folderId, userId)
    ensures !CanAdminister(db, folderId, userId)
    ensures FolderExists(db, folderId) ==> CanEdit(db, folderId, userId)
  {
    forall t | t in db.shares && IsAdminGrant(t, folderId, userId)
      ensures false
    {
      AtMostOneGrant(db, s, t, folderId, userId);
    }
    assert IsGrant(s, folderId, userId, Some(EditorRoles));
  }

  /** The tiers: delete rights imply edit rights, which imply read rights. */
  lemma AdministerImpliesEdit(db: Db, folderId: int, userId: int)
    ensures CanAdminister(db, folderId, userId) ==> CanEdit(db, folderId, userId)
    ensures CanEdit(db, folderId, userId) ==> GetFlashcards(db, folderId, User(userId, "")).Ok?
  {
    if !IsOwner(db, folderId, userId) && CanAdminister(db, folderId, userId) {
      var s :| s in db.shares && IsAdminGrant(s, folderId, userId);
      assert IsGrant(s, folderId, userId, Some(EditorRoles));
    }
    FilterTiers(db, folderId, userId);
  }
}
