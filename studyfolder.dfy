/** Study-folder handlers: every one of them is owner-only, and a folder of another account is
    indistinguishable from a folder that does not exist (both 404). */
module StudyFolders {
  import opened Wrappers
  import opened Tables
  import opened Records
  import opened Permissions

  /** One entry of a folder's file listing; the url is the file's storage key. */
  datatype FileEntry = FileEntry(id: int, filename: string, url: string)

  function Entry(f: File): FileEntry {
    FileEntry(f.id, f.filename, f.s3Key)
  }

  /** The caller's own folders; folders shared with the caller are not listed. */
  function ListFolders(db: Db, caller: User): (r: seq<Folder>)
    ensures forall f :: f in r <==> f in db.folders && f.userId == caller.id
    ensures forall f :: f in db.folders ==> multiset(r)[f] == if f.userId == caller.id then multiset(db.folders)[f] else 0
  {
    var ownedByCaller := (f: Folder) => f.userId == caller.id;
    FilterCount(db.folders, ownedByCaller);
    Filter(db.folders, ownedByCaller)
  }

  function GetFolderById(db: Db, folderId: int, caller: User): (r: Result<Folder>)
    ensures r.Ok? <==> IsOwner(db, folderId, caller.id)
    ensures r.Err? ==> r.error == NotFound
    ensures r.Ok? ==> r.value in db.folders && r.value.id == folderId && r.value.userId == caller.id
  {
    match VerifyFolderOwnership(db, folderId, caller.id)
    case None => Err(NotFound)
    case Some(folder) => Ok(folder)
  }

  /** The files of one folder, each as often as the table holds it, in sequence order. */
  function FolderFiles(files: seq<File>, folderId: int): (r: seq<File>)
    ensures forall f :: f in r <==> f in files && f.folderId == folderId
    ensures forall f :: f in files ==>
      multiset(r)[f] == if f.folderId == folderId then multiset(files)[f] else 0
  {
    var inFolder := (f: File) => f.folderId == folderId;
    FilterCount(files, inFolder);
    Filter(files, inFolder)
  }

  /** One listing entry per file, in the same order. */
  function Entries(files: seq<File>): (r: seq<FileEntry>)
    ensures |r| == |files|
    ensures forall i :: 0 <= i < |files| ==> r[i] == FileEntry(files[i].id, files[i].filename, files[i].s3Key)
    ensures forall e :: e in r <==> exists f :: f in files && e == FileEntry(f.id, f.filename, f.s3Key)
  {
    var entries := seq(|files|, i requires 0 <= i < |files| => Entry(files[i]));
    assert forall f :: f in files ==> Entry(f) in entries by {
      forall f | f in files ensures Entry(f) in entries {
        var i :| 0 <= i < |files| && files[i] == f;
        assert entries[i] == Entry(f);
      }
    }
    assert forall e :: e in entries ==> exists f :: f in files && e == Entry(f) by {
      forall e | e in entries ensures exists f :: f in files && e == Entry(f) {
        var i :| 0 <= i < |entries| && entries[i] == e;
        assert files[i] in files;
      }
    }
    entries
  }

  /** The file listing of an owned folder: one entry per file of that folder, 404 otherwise. */
  function GetFilesInFolder(db: Db, folderId: int, caller: User): (r: Result<seq<FileEntry>>)
    ensures r.Ok? <==> IsOwner(db, folderId, caller.id)
    ensures r.Err? ==> r.error == NotFound
    ensures r.Ok? ==> forall e :: e in r.value <==>
      exists f :: f in db.files && f.folderId == folderId && e == FileEntry(f.id, f.filename, f.s3Key)
    ensures r.Ok? ==>
      var files := FolderFiles(db.files, folderId);
      && |r.value| == |files|
      && forall i :: 0 <= i < |files| ==> r.value[i] == FileEntry(files[i].id, files[i].filename, files[i].s3Key)
  {
    if VerifyFolderOwnership(db, folderId, caller.id).None? then Err(NotFound)
    else Ok(Entries(FolderFiles(db.files, folderId)))
  }

  /** Another account's folder and a missing folder give the same answer on every read. */
  lemma ForeignFolderLooksMissing(db: Db, folderId: int, missingId: int, caller: User)
    requires !IsOwner(db, folderId, caller.id) && !FolderExists(db, missingId)
    ensures GetFolderById(db, folderId, caller) == GetFolderById(db, missingId, caller) == Err(NotFound)
    ensures GetFilesInFolder(db, folderId, caller) == GetFilesInFolder(db, missingId, caller) == Err(NotFound)
  {
  }

  /** Creating a folder never fails: a new row owned by the caller, with the next id. */
  method CreateFolder(st: Store, name: string, description: Option<string>, caller: User) returns (r: Folder)
    requires st.Valid()
    modifies st
    ensures st.Valid()
    ensures r == Folder(old(st.nextFolderId), name, description, caller.id, None)
    ensures st.folders == old(st.folders) + [r]
    ensures st.Snapshot() == old(st.Snapshot()).(folders := st.folders)
    ensures st.nextFolderId == old(st.nextFolderId) + 1
    ensures st.nextFlashcardId == old(st.nextFlashcardId) && st.nextShareId == old(st.nextShareId)
  {
    var db := st.Snapshot();
    r := Folder(st.nextFolderId, name, description, caller.id, None);
    ConsistentWithFolders(db, db.folders + [r]);
    st.folders := st.folders + [r];
    st.nextFolderId := st.nextFolderId + 1;
  }

  /** Renaming or re-describing an owned folder (404 otherwise): supplied fields change, the update
      time is set, the id and owner stay. */
  method UpdateFolder(st: Store, folderId: int, name: Option<string>, description: Option<string>,
                      caller: User, now: int)
    returns (r: Result<Folder>)
    requires st.Valid()
    modifies st
    ensures st.Valid()
    ensures r.Ok? <==> IsOwner(old(st.Snapshot()), folderId, caller.id)
    ensures r.Err? ==> r == Err(NotFound) && unchanged(st)
    ensures r.Ok? ==>
      var f := FindFolder(old(st.folders), folderId).value;
      && r.value == f.(name := name.GetOr(f.name),
                       description := if description.Some? then description else f.description,
                       updatedAt := Some(now))
      && st.folders == ReplaceFolder(old(st.folders), r.value)
      && st.Snapshot() == old(st.Snapshot()).(folders := st.folders)
      && st.nextFolderId == old(st.nextFolderId)
      && st.nextFlashcardId == old(st.nextFlashcardId) && st.nextShareId == old(st.nextShareId)
  {
    var db := st.Snapshot();
    var folder := VerifyFolderOwnership(db, folderId, caller.id);
    if folder.None? {
      return Err(NotFound);
    }
    var updated := folder.value;
    if name.Some? {
      updated := updated.(name := name.value);
    }
    if description.Some? {
      updated := updated.(description := description);
    }
    updated := updated.(updatedAt := Some(now));
    ConsistentWithFolders(db, ReplaceFolder(db.folders, updated));
    st.folders := ReplaceFolder(st.folders, updated);
    r := Ok(updated);
  }

  /** Deleting an owned folder (404 otherwise) removes that row only. */
  method DeleteFolder(st: Store, folderId: int, caller: User) returns (r: Result<()>)
    requires st.Valid()
    modifies st
    ensures st.Valid()
    ensures r.Ok? <==> IsOwner(old(st.Snapshot()), folderId, caller.id)
    ensures r.Err? ==> r == Err(NotFound) && unchanged(st)
    ensures r.Ok? ==>
      && st.folders == WithoutFolder(old(st.folders), folderId)
      && st.Snapshot() == old(st.Snapshot()).(folders := st.folders)
      && st.nextFolderId == old(st.nextFolderId)
      && st.nextFlashcardId == old(st.nextFlashcardId) && st.nextShareId == old(st.nextShareId)
  {
    var db := st.Snapshot();
    var folder := VerifyFolderOwnership(db, folderId, caller.id);
    if folder.None? {
      return Err(NotFound);
    }
    ConsistentWithFolders(db, WithoutFolder(db.folders, folderId));
    st.folders := WithoutFolder(st.folders, folderId);
    r := Ok(());
  }

  /** After a delete the folder is gone for everyone, owner included, and no one can reach it. */
  lemma DeletedFolderIsGone(db: Db, folderId: int, caller: User, types: Option<seq<string>>)
    ensures var after := db.(folders := WithoutFolder(db.folders, folderId));
      && GetFolderById(after, folderId, caller) == Err(NotFound)
      && VerifyFolderAccess(after, folderId, caller.id, types) == Err(NotFound)
  {
  }
}
