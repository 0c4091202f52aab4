/**
 * The upload file system: creation gated by mgmt_cb_file_access, and the reboot path's test for pending
 * updates (fwloader_mcumgr_mgmt_callbacks.c, main.c).
 */
module PendingUpdates {
  import opened Bytes
  import opened Mgmt

  /** RUUVI_FW_UPDATE_MOUNT_POINT, the four update file names, and RUUVI_FW_PATH_MAX_SIZE. */
  datatype RawPaths = RawPaths(
    mount: string, mcuboot0: string, mcuboot1: string, loader: string, app: string, maxSize: nat)

  type Paths = p: RawPaths | p.maxSize > 0 witness RawPaths("", "", "", "", "", 1)

  function FullPath(p: Paths, name: string): string {
    p.mount + "/" + name
  }

  /** expected_file_path: the path as the hook prints it into its fixed buffer. */
  function HookPath(p: Paths, name: string): string {
    SnPrintF(p.mount + "/" + name, p.maxSize)
  }

  function Names(p: Paths): set<string> {
    {p.mcuboot0, p.mcuboot1, p.loader, p.app}
  }

  /** The paths the reboot code looks for. */
  function RebootPaths(p: Paths): set<string> {
    set name | name in Names(p) :: FullPath(p, name)
  }

  /** The paths the hook lets through. */
  function HookPaths(p: Paths): set<string> {
    set name | name in Names(p) :: HookPath(p, name)
  }

  /** All four paths and their NUL fit the hook's buffer. */
  predicate Fits(p: Paths) {
    forall name | name in Names(p) :: |FullPath(p, name)| < p.maxSize
  }

  lemma FittingPathsAgree(p: Paths)
    requires Fits(p)
    ensures HookPaths(p) == RebootPaths(p)
  {
    assert forall name | name in Names(p) :: HookPath(p, name) == FullPath(p, name);
  }

  // Histories of upload requests

  /** A request to write a file, and whether the file system can store it. */
  datatype Upload = Upload(path: string, storable: bool)

  /**
   * The files present after these requests, starting from a freshly formatted file system, with the hook
   * registered before the first of them.
   */
  function Present(p: Paths, uploads: seq<Upload>): set<string> {
    if uploads == [] then {}
    else
      var last := uploads[|uploads| - 1];
      Present(p, uploads[..|uploads| - 1]) + if last.path in HookPaths(p) && last.storable then {last.path} else {}
  }

  lemma {:induction false} PresentAllowed(p: Paths, uploads: seq<Upload>)
    ensures Present(p, uploads) <= HookPaths(p)
  {
    if uploads != [] {
      PresentAllowed(p, uploads[..|uploads| - 1]);
    }
  }

  /** What is present: every file of which some request was let through and stored, and nothing else. */
  lemma {:induction false} PresentExactly(p: Paths, uploads: seq<Upload>, f: string)
    ensures f in Present(p, uploads) <==>
      f in HookPaths(p) && exists k | 0 <= k < |uploads| :: uploads[k] == Upload(f, true)
  {
    if uploads != [] {
      var front, last := uploads[..|uploads| - 1], |uploads| - 1;
      PresentExactly(p, front, f);
      assert forall k | 0 <= k < last :: uploads[k] == front[k];
      if k :| 0 <= k < |uploads| && uploads[k] == Upload(f, true) && k < last {
        assert front[k] == Upload(f, true);
      }
      if uploads[last] == Upload(f, true) {
        assert uploads[last].path == f;
      }
    }
  }

  predicate ReportsPending(p: Paths, files: set<string>) {
    files * RebootPaths(p) != {}
  }

  /** Looking for the four files one by one. */
  lemma PendingIfAnyPresent(p: Paths, files: set<string>)
    ensures ReportsPending(p, files) <==>
         || FullPath(p, p.mcuboot0) in files || FullPath(p, p.mcuboot1) in files
         || FullPath(p, p.loader) in files || FullPath(p, p.app) in files
  {
    var found := files * RebootPaths(p);
    assert RebootPaths(p)
        == {FullPath(p, p.mcuboot0), FullPath(p, p.mcuboot1), FullPath(p, p.loader), FullPath(p, p.app)};
    assert forall f :: f in found <==> f in files && f in RebootPaths(p);
    if found != {} {
      var f :| f in found;
    } else {
      assert forall f | f in RebootPaths(p) :: f !in found;
    }
  }

  /** With paths that fit the buffer, only the four update files are ever present. */
  lemma OnlyUpdateFiles(p: Paths, uploads: seq<Upload>)
    requires Fits(p)
    ensures Present(p, uploads) <= RebootPaths(p)
  {
    PresentAllowed(p, uploads);
    FittingPathsAgree(p);
  }

  /** The test the reboot path makes is right for this history. */
  predicate PendingIsNonempty(p: Paths, uploads: seq<Upload>) {
    ReportsPending(p, Present(p, uploads)) <==> Present(p, uploads) != {}
  }

  /**
   * The reboot path reports pending updates exactly when the file system is nonempty, on every history, if
   * and only if each path the hook prints, truncated or not, is one the reboot path looks for.
   */
  lemma PendingFilesExactly(p: Paths)
    ensures (forall uploads :: PendingIsNonempty(p, uploads)) <==> HookPaths(p) <= RebootPaths(p)
    ensures Fits(p) ==> HookPaths(p) <= RebootPaths(p)
  {
    if Fits(p) {
      FittingPathsAgree(p);
    }
    if HookPaths(p) <= RebootPaths(p) {
      forall uploads
        ensures PendingIsNonempty(p, uploads)
      {
        PresentAllowed(p, uploads);
        assert Present(p, uploads) * RebootPaths(p) == Present(p, uploads);
      }
    } else {
      var stray :| stray in HookPaths(p) && stray !in RebootPaths(p);
      var uploads := [Upload(stray, true)];
      assert uploads[..0] == [];
      assert Present(p, uploads) == {stray};
      assert stray in Present(p, uploads);
      assert {stray} * RebootPaths(p) == {};
      assert !PendingIsNonempty(p, uploads);
    }
  }

  // The code

  datatype EntryType = FileEntry | DirEntry

  class UpdateFs {
    const paths: Paths
    var entries: map<string, EntryType>
    ghost var uploads: seq<Upload>

    /** btldr_fs_mount: formatting leaves no entries. */
    constructor (paths: Paths)
      ensures this.paths == paths && uploads == [] && Valid()
    {
      this.paths, entries, uploads := paths, map[], [];
    }

    ghost predicate Valid()
      reads this
    {
      && entries.Keys == Present(paths, uploads)
      && forall f | f in entries :: entries[f] == FileEntry
    }

    /** check_is_file_path_equal_to_name */
    method CheckIsFilePathEqualToName(filePath: string, fileName: string) returns (equal: bool)
      ensures equal <==> filePath == HookPath(paths, fileName)
    {
      var expected := SnPrintF(paths.mount + "/" + fileName, paths.maxSize);
      if filePath != expected {
        return false;
      }
      return true;
    }

    /** mgmt_cb_file_access; `filename` is None when the event carries no data. */
    method MgmtCbFileAccess(event: MgmtEvent, filename: Option<string>) returns (r: CbReturn)
      ensures r == if event == FsMgmtFileAccess && filename.Some? && filename.value !in HookPaths(paths)
                   then CbErrorErr(MGMT_GROUP_ID_FS, MGMT_ERR_EINVAL) else CbOk
    {
      if event != FsMgmtFileAccess {
        return CbOk;
      }
      if filename.None? {
        return CbOk;
      }
      var is0 := CheckIsFilePathEqualToName(filename.value, paths.mcuboot0);
      var is1 := CheckIsFilePathEqualToName(filename.value, paths.mcuboot1);
      var isLoader := CheckIsFilePathEqualToName(filename.value, paths.loader);
      var isApp := CheckIsFilePathEqualToName(filename.value, paths.app);
      assert HookPaths(paths) == {HookPath(paths, paths.mcuboot0), HookPath(paths, paths.mcuboot1),
                                  HookPath(paths, paths.loader), HookPath(paths, paths.app)};
      if !is0 && !is1 && !isLoader && !isApp {
        return CbErrorErr(MGMT_GROUP_ID_FS, MGMT_ERR_EINVAL);
      }
      return CbOk;
    }

    /** An upload request as fs_mgmt serves it: the hook first, then the write. */
    method Write(upload: Upload)
      requires Valid()
      modifies this
      ensures Valid() && uploads == old(uploads) + [upload]
    {
      ghost var before := uploads;
      uploads := uploads + [upload];
      assert uploads[..|uploads| - 1] == before;
      var r := MgmtCbFileAccess(FsMgmtFileAccess, Some(upload.path));
      if r.CbOk? && upload.storable {
        entries := entries[upload.path := FileEntry];
      }
    }

    /** app_fs_is_file_exist */
    method AppFsIsFileExist(absPath: string) returns (exist: bool)
      ensures exist <==> absPath in entries && entries[absPath] == FileEntry
    {
      if absPath !in entries {
        return false;
      }
      if entries[absPath] != FileEntry {
        return false;
      }
      return true;
    }

    /** __wrap_sys_reboot, lines 290-306 */
    method FlagUpdatesAvailable() returns (available: bool)
      requires Valid()
      ensures available <==> ReportsPending(paths, entries.Keys)
      ensures Fits(paths) ==> (available <==> entries != map[])
    {
      available := false;
      var exist := AppFsIsFileExist(FullPath(paths, paths.mcuboot0));
      if exist {
        available := true;
      }
      exist := AppFsIsFileExist(FullPath(paths, paths.mcuboot1));
      if exist {
        available := true;
      }
      exist := AppFsIsFileExist(FullPath(paths, paths.loader));
      if exist {
        available := true;
      }
      exist := AppFsIsFileExist(FullPath(paths, paths.app));
      if exist {
        available := true;
      }
      PendingIfAnyPresent(paths, entries.Keys);
      PendingFilesExactly(paths);
      if Fits(paths) {
        assert PendingIsNonempty(paths, uploads);
        assert entries != map[] <==> entries.Keys != {};
      }
    }
  }
}
