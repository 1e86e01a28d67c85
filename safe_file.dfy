/**
 * Atomic saving of xio/fs/safe/file.go: writes go to a temporary file in the
 * destination's directory, `Commit` renames it onto the destination, and
 * `Close` without a commit throws it away, so the destination only ever
 * holds its old content or the complete new content.
 */
module Safe {
  import opened Wrappers
  import opened Os
  import FilePath

  /**
   * Names in the file system: the paths callers ask for, and the temporary
   * files `ioutil.TempFile` creates (told apart by the random part of their
   * name).  A temporary name is never one a caller asks for.
   */
  datatype SafeName = Named(path: string) | Temp(id: nat)

  /** The check `CreateWithMode` makes on the cleaned name: empty, or ending with the separator. */
  predicate Rejected(filename: string) {
    var name := FilePath.Clean(filename);
    |name| == 0 || name[|name| - 1] == FilePath.Separator
  }

  /** Since a cleaned name is never empty, the check rejects exactly the names that clean to the root. */
  lemma RejectedIsRoot(filename: string)
    ensures Rejected(filename) <==> FilePath.Clean(filename) == [FilePath.Separator]
  {
    FilePath.CleanShape(filename);
  }

  /**
   * A successful commit's rename: the destination takes the temporary file's
   * content, whatever it held before, the temporary name is gone, and no
   * other name changes.
   */
  lemma CommitRename(files: map<SafeName, Bytes>, temp: SafeName, original: SafeName, k: SafeName)
    requires temp in files && temp != original
    ensures Get(RenameIn(files, temp, original), original) == Some(files[temp])
    ensures temp !in RenameIn(files, temp, original)
    ensures k != temp && k != original ==> Get(RenameIn(files, temp, original), k) == Get(files, k)
  {
  }

  class File {
    /** The name passed to `CreateWithMode`. */
    ghost const requested: string
    /** The cleaned name the temporary file is renamed to (`originalName`). */
    const originalName: string
    /** The embedded `*os.File`: the open temporary file. */
    const temp: Handle<SafeName>
    var committed: bool
    var closed: bool

    /** The name fields as `CreateWithMode` sets them. */
    ghost predicate Valid() {
      && originalName == FilePath.Clean(requested)
      && !Rejected(requested)
      && temp.name.Temp?
    }

    constructor (requested: string, originalName: string, temp: Handle<SafeName>)
      ensures this.requested == requested && this.originalName == originalName && this.temp == temp
      ensures !committed && !closed
    {
      this.requested := requested;
      this.originalName := originalName;
      this.temp := temp;
      committed, closed := false, false;
    }

    /** `OriginalName`: the cleaned name given at creation, which is neither empty nor the root. */
    function OriginalName(): (r: string)
      requires Valid()
      ensures r == FilePath.Clean(requested)
      ensures r != "" && r != [FilePath.Separator]
    {
      RejectedIsRoot(requested);
      FilePath.CleanShape(requested);
      originalName
    }

    /**
     * `Commit`: a second commit does nothing and succeeds; a commit after
     * `Close` fails with `ErrInvalid`.  Otherwise both flags are set first,
     * then the temporary file is synced and closed, and renamed onto the
     * original name only if both succeeded; after any failure the temporary
     * file is removed and the first error is returned.  The ghost results
     * are the outcomes of the individual calls as the file system's log
     * records them (None for a call that succeeded or was not made).
     */
    method Commit(fs: FileSystem<SafeName>)
      returns (err: Option<Error>, ghost syncErr: Option<Error>, ghost closeErr: Option<Error>,
               ghost renameErr: Option<Error>, ghost removeErr: Option<Error>)
      requires Valid()
      modifies this, fs
      ensures old(committed) ==> err.None? && committed && closed == old(closed) && fs.files == old(fs.files)
      ensures !old(committed) && old(closed) ==> err == Some(Invalid) && !committed && closed && fs.files == old(fs.files)
      ensures !old(committed) && !old(closed) ==> committed && closed
      ensures old(committed) || old(closed) ==> fs.log == old(fs.log)
      // sync and close always; the rename only after both succeeded; the clean-up remove after any failure
      ensures !old(committed) && !old(closed) ==>
                fs.log == old(fs.log) + [Call(SyncOp, syncErr), Call(CloseOp, closeErr)]
                          + (if syncErr.None? && closeErr.None? then [Call(RenameOp, renameErr)] else [])
                          + (if err.Some? then [Call(RemoveOp, removeErr)] else [])
      ensures !old(committed) && !old(closed) ==>
                err == (if syncErr.Some? then syncErr else if closeErr.Some? then closeErr else renameErr)
      ensures syncErr.Some? ==> syncErr.value == OpError(SyncOp, Failed)
      ensures closeErr.Some? ==> closeErr.value == OpError(CloseOp, Failed)
      ensures renameErr.Some? ==> renameErr.value.OpError? && renameErr.value.op == RenameOp
      ensures removeErr.Some? ==> err.Some? && removeErr.value.OpError? && removeErr.value.op == RemoveOp
      ensures !old(committed) && !old(closed) && err.None? ==>
                temp.name in old(fs.files) && fs.files == RenameIn(old(fs.files), temp.name, Named(originalName))
      ensures !old(committed) && !old(closed) && err.Some? && removeErr.None? ==>
                temp.name in old(fs.files) && fs.files == old(fs.files) - {temp.name}
      ensures !old(committed) && !old(closed) && err.Some? && removeErr.Some? ==> fs.files == old(fs.files)
      ensures !old(committed) && !old(closed) && err.Some? ==>
                && err.value.OpError?
                && err.value.op in {SyncOp, CloseOp, RenameOp}
                && (fs.files == old(fs.files) - {temp.name} || fs.files == old(fs.files))
      ensures err.Some? ==> Get(fs.files, Named(originalName)) == Get(old(fs.files), Named(originalName))
    {
      syncErr, closeErr, renameErr, removeErr := None, None, None, None;
      if committed {
        return None, syncErr, closeErr, renameErr, removeErr;
      }
      if closed {
        return Some(Invalid), syncErr, closeErr, renameErr, removeErr;
      }
      committed, closed := true, true;
      err := fs.Sync(temp);
      syncErr := err;
      var cerr := fs.Close(temp);
      closeErr := cerr;
      if cerr.Some? && err.None? {
        err := cerr;
      }
      var name := temp.name;
      if err.None? {
        err := fs.Rename(name, Named(originalName));
        renameErr := err;
      }
      if err.Some? {
        var rerr := fs.Remove(name);
        removeErr := rerr;
        if rerr.Some? && err.None? {
          err := rerr;
        }
      }
    }

    /**
     * `Close`: after a commit it does nothing and succeeds; a second close
     * fails with `ErrInvalid`.  Otherwise it closes and removes the
     * temporary file, returning the close error or else the remove error;
     * the original name is never touched.  The ghost results are the
     * outcomes of the two calls as the file system's log records them
     * (None for a call that succeeded or was not made).
     */
    method Close(fs: FileSystem<SafeName>)
      returns (err: Option<Error>, ghost closeErr: Option<Error>, ghost removeErr: Option<Error>)
      requires Valid()
      modifies this, fs
      ensures committed == old(committed)
      ensures old(committed) ==> err.None? && closed == old(closed) && fs.files == old(fs.files)
      ensures !old(committed) && old(closed) ==> err == Some(Invalid) && closed && fs.files == old(fs.files)
      ensures !old(committed) && !old(closed) ==> closed
      ensures old(committed) || old(closed) ==> fs.log == old(fs.log)
      ensures !old(committed) && !old(closed) ==> fs.log == old(fs.log) + [Call(CloseOp, closeErr), Call(RemoveOp, removeErr)]
      ensures !old(committed) && !old(closed) ==> err == (if closeErr.Some? then closeErr else removeErr)
      ensures closeErr.Some? ==> closeErr.value == OpError(CloseOp, Failed)
      ensures removeErr.Some? ==> removeErr.value.OpError? && removeErr.value.op == RemoveOp
      ensures !old(committed) && !old(closed) && removeErr.None? ==>
                temp.name in old(fs.files) && fs.files == old(fs.files) - {temp.name}
      ensures !old(committed) && !old(closed) && removeErr.Some? ==> fs.files == old(fs.files)
      ensures Get(fs.files, Named(originalName)) == Get(old(fs.files), Named(originalName))
    {
      closeErr, removeErr := None, None;
      if committed {
        return None, closeErr, removeErr;
      }
      if closed {
        return Some(Invalid), closeErr, removeErr;
      }
      closed := true;
      err := fs.Close(temp);
      closeErr := err;
      var rerr := fs.Remove(temp.name);
      removeErr := rerr;
      if rerr.Some? && err.None? {
        err := rerr;
      }
    }
  }

  /**
   * `CreateWithMode` (and `Create`, which passes mode 0644): cleans the
   * name, rejects one that is empty or ends with the separator with
   * `ErrInvalid`, and otherwise creates a fresh, empty temporary file named
   * by `tempId` next to it.  Any failure leaves the file system as it was.
   */
  method CreateWithMode(filename: string, tempId: nat, fs: FileSystem<SafeName>) returns (f: File?, err: Option<Error>)
    modifies fs
    ensures err.None? <==> f != null
    ensures Rejected(filename) ==> f == null && err == Some(Invalid)
    ensures !Rejected(filename) && err.Some? ==> err.value.OpError? && err.value.op == CreateOp
    ensures err.Some? ==> fs.files == old(fs.files)
    ensures Rejected(filename) ==> fs.log == old(fs.log)
    ensures !Rejected(filename) ==> fs.log == old(fs.log) + [Call(CreateOp, err)]
    ensures f != null ==>
              && fresh(f) && f.Valid()
              && f.requested == filename && f.temp == Handle(Temp(tempId))
              && !f.committed && !f.closed
              && Temp(tempId) !in old(fs.files) && fs.files == old(fs.files)[Temp(tempId) := []]
  {
    var name := FilePath.Clean(filename);
    if |name| == 0 || name[|name| - 1] == FilePath.Separator {
      return null, Some(Invalid);
    }
    var r := fs.CreateExclusive(Temp(tempId));
    if r.Err? {
      return null, Some(r.error);
    }
    f := new File(filename, name, r.value);
    err := None;
  }
}
