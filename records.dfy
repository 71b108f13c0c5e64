/** The rows the handlers read and write, the store that holds them, and the store's invariants.
    Field sets are those the handlers' queries and constructors use. */
module Records {
  import opened Wrappers
  import opened Tables

  /** A registered account; the authenticated caller of every handler is one of these. */
  datatype User = User(id: int, email: string)

  /** A study folder; `userId` is its single owner. `updatedAt` is an opaque clock value. */
  datatype Folder = Folder(id: int, name: string, description: Option<string>, userId: int, updatedAt: Option<int>)

  /** A flashcard; `userId` is the account that created it. */
  datatype Flashcard = Flashcard(id: int, question: string, answer: string, folderId: int, userId: int)

  /** An uploaded file as the folder listing sees it. */
  datatype File = File(id: int, filename: string, s3Key: string, folderId: int)

  /** A folder share. `userId` is `None` while the invited address has no account;
      `invitationAccepted` is false for a pending invitation. */
  datatype Share = Share(id: int, folderId: int, userId: Option<int>, permissionType: string,
                         invitationEmail: string, invitationAccepted: bool, updatedAt: Option<int>)

  /** A value snapshot of every table. */
  datatype Db = Db(users: seq<User>, folders: seq<Folder>, flashcards: seq<Flashcard>,
                   files: seq<File>, shares: seq<Share>)

  // Primary keys and the unique e-mail column.

  ghost predicate UniqueUsers(users: seq<User>) {
    forall i, j :: 0 <= i < |users| && 0 <= j < |users| && i != j ==>
      users[i].id != users[j].id && users[i].email != users[j].email
  }

  ghost predicate UniqueFolderIds(folders: seq<Folder>) {
    forall i, j :: 0 <= i < |folders| && 0 <= j < |folders| && folders[i].id == folders[j].id ==> i == j
  }

  ghost predicate UniqueFlashcardIds(cards: seq<Flashcard>) {
    forall i, j :: 0 <= i < |cards| && 0 <= j < |cards| && cards[i].id == cards[j].id ==> i == j
  }

  ghost predicate UniqueFileIds(files: seq<File>) {
    forall i, j :: 0 <= i < |files| && 0 <= j < |files| && files[i].id == files[j].id ==> i == j
  }

  ghost predicate UniqueShareIds(shares: seq<Share>) {
    forall i, j :: 0 <= i < |shares| && 0 <= j < |shares| && shares[i].id == shares[j].id ==> i == j
  }

  /** The constraints the database itself enforces. */
  ghost predicate KeysUnique(db: Db) {
    && UniqueUsers(db.users)
    && UniqueFolderIds(db.folders)
    && UniqueFlashcardIds(db.flashcards)
    && UniqueFileIds(db.files)
    && UniqueShareIds(db.shares)
  }

  /** At most one share row per (folder, invitation e-mail): the duplicate check of the invite handler. */
  ghost predicate OneSharePerInvitation(shares: seq<Share>) {
    forall i, j :: 0 <= i < |shares| && 0 <= j < |shares| && i != j ==>
      !(shares[i].folderId == shares[j].folderId && shares[i].invitationEmail == shares[j].invitationEmail)
  }

  /** An accepted share is linked to the registered account whose e-mail it was issued to:
      only that account can accept it, and accepting links it. */
  ghost predicate GrantsMatchAccounts(db: Db) {
    forall s :: s in db.shares && s.invitationAccepted ==>
      exists u :: u in db.users && s.userId == Some(u.id) && u.email == s.invitationEmail
  }

  /** The invariant every handler keeps. */
  ghost predicate Consistent(db: Db) {
    && KeysUnique(db)
    && OneSharePerInvitation(db.shares)
    && GrantsMatchAccounts(db)
  }

  // Lookups by key.

  function FindFolder(folders: seq<Folder>, id: int): (r: Option<Folder>)
    ensures r.Some? <==> exists f :: f in folders && f.id == id
    ensures r.Some? ==> r.value in folders && r.value.id == id
    ensures UniqueFolderIds(folders) ==> forall f :: f in folders && f.id == id ==> r == Some(f)
  {
    First(folders, (f: Folder) => f.id == id)
  }

  function FindFlashcard(cards: seq<Flashcard>, id: int): (r: Option<Flashcard>)
    ensures r.Some? <==> exists c :: c in cards && c.id == id
    ensures r.Some? ==> r.value in cards && r.value.id == id
    ensures UniqueFlashcardIds(cards) ==> forall c :: c in cards && c.id == id ==> r == Some(c)
  {
    First(cards, (c: Flashcard) => c.id == id)
  }

  function FindShare(shares: seq<Share>, id: int): (r: Option<Share>)
    ensures r.Some? <==> exists s :: s in shares && s.id == id
    ensures r.Some? ==> r.value in shares && r.value.id == id
    ensures UniqueShareIds(shares) ==> forall s :: s in shares && s.id == id ==> r == Some(s)
  {
    First(shares, (s: Share) => s.id == id)
  }

  function FindUserByEmail(users: seq<User>, email: string): (r: Option<User>)
    ensures r.Some? <==> exists u :: u in users && u.email == email
    ensures r.Some? ==> r.value in users && r.value.email == email
    ensures UniqueUsers(users) ==> forall u :: u in users && u.email == email ==> r == Some(u)
  {
    First(users, (u: User) => u.email == email)
  }

  // Row updates as the session commits them: rewrite the row with that id, or remove it.

  /** The flashcard table with the row whose id is `card.id` replaced by `card`. */
  function ReplaceFlashcard(cards: seq<Flashcard>, card: Flashcard): (r: seq<Flashcard>)
    ensures |r| == |cards| && forall i :: 0 <= i < |r| ==> r[i].id == cards[i].id
    ensures forall c :: c in r ==> c == card || (c in cards && c.id != card.id)
    ensures forall c :: c in cards && c.id != card.id ==> c in r
    ensures (exists c :: c in cards && c.id == card.id) ==> card in r
    ensures UniqueFlashcardIds(cards) ==> UniqueFlashcardIds(r)
  {
    seq(|cards|, i requires 0 <= i < |cards| => if cards[i].id == card.id then card else cards[i])
  }

  /** The share table with the row whose id is `share.id` replaced by `share`. */
  function ReplaceShare(shares: seq<Share>, share: Share): (r: seq<Share>)
    ensures |r| == |shares| && forall i :: 0 <= i < |r| ==> r[i].id == shares[i].id
    ensures forall i :: 0 <= i < |r| ==> r[i] == shares[i] || r[i] == share
    ensures forall s :: s in r ==> s == share || (s in shares && s.id != share.id)
    ensures forall s :: s in shares && s.id != share.id ==> s in r
    ensures (exists s :: s in shares && s.id == share.id) ==> share in r
    ensures UniqueShareIds(shares) ==> UniqueShareIds(r)
  {
    seq(|shares|, i requires 0 <= i < |shares| => if shares[i].id == share.id then share else shares[i])
  }

  /** The folder table with the row whose id is `folder.id` replaced by `folder`. */
  function ReplaceFolder(folders: seq<Folder>, folder: Folder): (r: seq<Folder>)
    ensures |r| == |folders| && forall i :: 0 <= i < |r| ==> r[i].id == folders[i].id
    ensures forall f :: f in r ==> f == folder || (f in folders && f.id != folder.id)
    ensures forall f :: f in folders && f.id != folder.id ==> f in r
    ensures (exists f :: f in folders && f.id == folder.id) ==> folder in r
    ensures UniqueFolderIds(folders) ==> UniqueFolderIds(r)
  {
    seq(|folders|, i requires 0 <= i < |folders| => if folders[i].id == folder.id then folder else folders[i])
  }

  /** `db.delete` of the flashcard with that id. */
  function WithoutFlashcard(cards: seq<Flashcard>, id: int): (r: seq<Flashcard>)
    ensures FindFlashcard(r, id).None?
    ensures forall c :: c in cards && c.id != id ==> c in r
    ensures forall c :: c in r ==> c in cards
    ensures UniqueFlashcardIds(cards) ==> UniqueFlashcardIds(r)
  {
    FilterKeepsKeysUnique(cards, (c: Flashcard) => c.id != id, (c: Flashcard) => c.id);
    Filter(cards, (c: Flashcard) => c.id != id)
  }

  /** `db.delete` of the share with that id. */
  function WithoutShare(shares: seq<Share>, id: int): (r: seq<Share>)
    ensures FindShare(r, id).None?
    ensures forall s :: s in shares && s.id != id ==> s in r
    ensures forall s :: s in r ==> s in shares
    ensures UniqueShareIds(shares) ==> UniqueShareIds(r)
    ensures OneSharePerInvitation(shares) ==> OneSharePerInvitation(r)
  {
    FilterKeepsKeysUnique(shares, (s: Share) => s.id != id, (s: Share) => s.id);
    FilterKeepsKeysUnique(shares, (s: Share) => s.id != id, (s: Share) => (s.folderId, s.invitationEmail));
    Filter(shares, (s: Share) => s.id != id)
  }

  /** `db.delete` of the folder with that id. */
  function WithoutFolder(folders: seq<Folder>, id: int): (r: seq<Folder>)
    ensures FindFolder(r, id).None?
    ensures forall f :: f in folders && f.id != id ==> f in r
    ensures forall f :: f in r ==> f in folders
    ensures UniqueFolderIds(folders) ==> UniqueFolderIds(r)
  {
    FilterKeepsKeysUnique(folders, (f: Folder) => f.id != id, (f: Folder) => f.id);
    Filter(folders, (f: Folder) => f.id != id)
  }

  /** The invariant only constrains the flashcard table through its primary key. */
  lemma ConsistentWithFlashcards(db: Db, cards: seq<Flashcard>)
    requires Consistent(db) && UniqueFlashcardIds(cards)
    ensures Consistent(db.(flashcards := cards))
  {
  }

  /** A row whose id is above every stored id keeps the flashcard ids unique. */
  lemma FreshFlashcardKeepsIdsUnique(cards: seq<Flashcard>, card: Flashcard)
    requires UniqueFlashcardIds(cards) && forall c :: c in cards ==> c.id < card.id
    ensures UniqueFlashcardIds(cards + [card])
  {
    var r := cards + [card];
    forall i, j | 0 <= i < |r| && 0 <= j < |r| && r[i].id == r[j].id
      ensures i == j
    {
      if i < |cards| {
        assert r[i] in cards;
      }
      if j < |cards| {
        assert r[j] in cards;
      }
    }
  }

  /** The invariant only constrains the folder table through its primary key. */
  lemma ConsistentWithFolders(db: Db, folders: seq<Folder>)
    requires Consistent(db) && UniqueFolderIds(folders)
    ensures Consistent(db.(folders := folders))
  {
  }

  /** The database session: one table per field, and the next value of each id sequence. */
  class Store {
    var users: seq<User>
    var folders: seq<Folder>
    var flashcards: seq<Flashcard>
    var files: seq<File>
    var shares: seq<Share>
    var nextFolderId: int
    var nextFlashcardId: int
    var nextShareId: int

    function Snapshot(): Db
      reads this
    {
      Db(users, folders, flashcards, files, shares)
    }

    /** The store's invariant, and every id below its sequence's next value. */
    ghost predicate Valid()
      reads this
    {
      && Consistent(Snapshot())
      && (forall f :: f in folders ==> f.id < nextFolderId)
      && (forall c :: c in flashcards ==> c.id < nextFlashcardId)
      && (forall s :: s in shares ==> s.id < nextShareId)
    }

    /** A store holding the given accounts and files, with no folder, flashcard or share yet. */
    constructor (users: seq<User>, files: seq<File>)
      requires UniqueUsers(users) && UniqueFileIds(files)
      ensures Valid()
      ensures Snapshot() == Db(users, [], [], files, [])
      ensures nextFolderId == 1 && nextFlashcardId == 1 && nextShareId == 1
    {
      this.users := users;
      this.folders := [];
      this.flashcards := [];
      this.files := files;
      this.shares := [];
      this.nextFolderId := 1;
      this.nextFlashcardId := 1;
      this.nextShareId := 1;
    }
  }
}
