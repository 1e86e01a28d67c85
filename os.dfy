/**
 * An abstract operating-system file system: a map from names to byte
 * sequences.  Every call may fail; which calls fail is not determined by the
 * model (each one chooses with `:|`), so every property proved on top of it
 * holds for every pattern of failures.  A missing name is always reported as
 * "does not exist", which is what `os.IsNotExist` tests for.  Directories,
 * permissions and modes are not modelled.
 */
module Os {
  import opened Wrappers

  type Byte = bv8
  type Bytes = seq<Byte>

  /** The operation that reported an error (the `Op` of Go's `*os.PathError`). */
  datatype Op = StatOp | MkdirOp | CreateOp | OpenOp | WriteOp | SyncOp | CloseOp | RenameOp | RemoveOp

  /** The underlying cause of a failed operation. */
  datatype Kind = NotExist | Exist | Failed

  /** Errors: an operation's error, `os.ErrInvalid`, or an error wrapped by `errs.Wrap`. */
  datatype Error = OpError(op: Op, kind: Kind) | Invalid | Wrapped(cause: Error)

  datatype Result<+T> = Ok(value: T) | Err(error: Error)

  /** `os.IsNotExist`: true of an unwrapped "does not exist" error only. */
  predicate IsNotExist(e: Error) {
    e.OpError? && e.kind == NotExist
  }

  /** One call made to the file system, with its outcome: None when it succeeded. */
  datatype Call = Call(op: Op, outcome: Option<Error>)

  /** The error a call that returns a value reported, if any. */
  function Outcome<T>(r: Result<T>): Option<Error> {
    if r.Err? then Some(r.error) else None
  }

  /** The most recent call of a log. */
  function Last(log: seq<Call>): Call
    requires log != []
  {
    log[|log| - 1]
  }

  /** An open file handle; it refers to the file by name. */
  datatype Handle<N> = Handle(name: N)

  /** The content stored under a name, if any. */
  function Get<N>(files: map<N, Bytes>, name: N): Option<Bytes> {
    if name in files then Some(files[name]) else None
  }

  /** The effect of a rename that succeeded or found no source: the source's content moves to `dst`. */
  function RenameIn<N>(files: map<N, Bytes>, src: N, dst: N): map<N, Bytes> {
    if src in files then (files - {src})[dst := files[src]] else files
  }

  /** Key-wise view of `RenameIn` when the target slot is empty. */
  lemma RenameInAt<N>(files: map<N, Bytes>, src: N, dst: N, k: N)
    requires src != dst && dst !in files
    ensures Get(RenameIn(files, src, dst), k)
         == if k == dst then Get(files, src) else if k == src then None else Get(files, k)
  {
  }

  class FileSystem<N(==)> {
    var files: map<N, Bytes>
    /** Every call made so far, in order, with its outcome. */
    ghost var log: seq<Call>

    constructor (initial: map<N, Bytes>)
      ensures files == initial && log == []
    {
      files, log := initial, [];
    }

    /** `os.Stat`: the length of the named file. */
    method Stat(name: N) returns (r: Result<nat>)
      modifies this
      ensures files == old(files) && log == old(log) + [Call(StatOp, Outcome(r))]
      ensures r.Ok? ==> name in files && r.value == |files[name]|
      ensures r.Err? ==> r.error.OpError? && r.error.op == StatOp
      ensures (r.Err? && IsNotExist(r.error)) <==> name !in files
    {
      var fail: bool :| true;
      if name !in files {
        r := Err(OpError(StatOp, NotExist));
      } else if fail {
        r := Err(OpError(StatOp, Failed));
      } else {
        r := Ok(|files[name]|);
      }
      log := log + [Call(StatOp, Outcome(r))];
    }

    /** `os.MkdirAll` of the parent directory: directories are not modelled, so it can only fail. */
    method MkdirAll() returns (err: Option<Error>)
      modifies this
      ensures files == old(files) && log == old(log) + [Call(MkdirOp, err)]
      ensures err.Some? ==> err.value == OpError(MkdirOp, Failed)
    {
      var fail: bool :| true;
      err := if fail then Some(OpError(MkdirOp, Failed)) else None;
      log := log + [Call(MkdirOp, err)];
    }

    /** `os.Create`: creates or truncates the named file. */
    method Create(name: N) returns (r: Result<Handle<N>>)
      modifies this
      ensures log == old(log) + [Call(CreateOp, Outcome(r))]
      ensures r.Ok? ==> r.value == Handle(name) && files == old(files)[name := []]
      ensures r.Err? ==> r.error == OpError(CreateOp, Failed) && files == old(files)
    {
      var fail: bool :| true;
      if fail {
        r := Err(OpError(CreateOp, Failed));
      } else {
        files := files[name := []];
        r := Ok(Handle(name));
      }
      log := log + [Call(CreateOp, Outcome(r))];
    }

    /** An exclusive create (`O_CREATE|O_EXCL`): fails when the name is taken. */
    method CreateExclusive(name: N) returns (r: Result<Handle<N>>)
      modifies this
      ensures log == old(log) + [Call(CreateOp, Outcome(r))]
      ensures r.Ok? ==> r.value == Handle(name) && name !in old(files) && files == old(files)[name := []]
      ensures r.Err? ==> r.error.OpError? && r.error.op == CreateOp && files == old(files)
      ensures name in old(files) ==> r == Err(OpError(CreateOp, Exist))
    {
      var fail: bool :| true;
      if name in files {
        r := Err(OpError(CreateOp, Exist));
      } else if fail {
        r := Err(OpError(CreateOp, Failed));
      } else {
        files := files[name := []];
        r := Ok(Handle(name));
      }
      log := log + [Call(CreateOp, Outcome(r))];
    }

    /** `os.OpenFile` with `O_WRONLY|O_APPEND`: opens an existing file. */
    method OpenAppend(name: N) returns (r: Result<Handle<N>>)
      modifies this
      ensures files == old(files) && log == old(log) + [Call(OpenOp, Outcome(r))]
      ensures r.Ok? ==> r.value == Handle(name) && name in files
      ensures r.Err? ==> r.error.OpError? && r.error.op == OpenOp
      ensures name !in files ==> r == Err(OpError(OpenOp, NotExist))
    {
      var fail: bool :| true;
      if name !in files {
        r := Err(OpError(OpenOp, NotExist));
      } else if fail {
        r := Err(OpError(OpenOp, Failed));
      } else {
        r := Ok(Handle(name));
      }
      log := log + [Call(OpenOp, Outcome(r))];
    }

    /**
     * `(*os.File).Write` on an append handle: a prefix of `b` reaches the file,
     * and an error is reported exactly when the write was short.  Bytes
     * written through a handle whose name has gone land nowhere visible.
     */
    method Write(h: Handle<N>, b: Bytes) returns (n: nat, err: Option<Error>)
      modifies this
      ensures log == old(log) + [Call(WriteOp, err)]
      ensures n <= |b|
      ensures err.Some? <==> n < |b|
      ensures err.Some? ==> err.value == OpError(WriteOp, Failed)
      ensures files == if h.name in old(files) then old(files)[h.name := old(files)[h.name] + b[..n]] else old(files)
    {
      var k: nat :| k <= |b|;
      n := k;
      err := if n < |b| then Some(OpError(WriteOp, Failed)) else None;
      if h.name in files {
        files := files[h.name := files[h.name] + b[..n]];
      }
      log := log + [Call(WriteOp, err)];
    }

    /** `(*os.File).Sync`. */
    method Sync(h: Handle<N>) returns (err: Option<Error>)
      modifies this
      ensures files == old(files) && log == old(log) + [Call(SyncOp, err)]
      ensures err.Some? ==> err.value == OpError(SyncOp, Failed)
    {
      var fail: bool :| true;
      err := if fail then Some(OpError(SyncOp, Failed)) else None;
      log := log + [Call(SyncOp, err)];
    }

    /** `(*os.File).Close`: written data is already in the file, so content never changes. */
    method Close(h: Handle<N>) returns (err: Option<Error>)
      modifies this
      ensures files == old(files) && log == old(log) + [Call(CloseOp, err)]
      ensures err.Some? ==> err.value == OpError(CloseOp, Failed)
    {
      var fail: bool :| true;
      err := if fail then Some(OpError(CloseOp, Failed)) else None;
      log := log + [Call(CloseOp, err)];
    }

    /** `os.Rename`: atomically moves `src` onto `dst`, replacing what `dst` held. */
    method Rename(src: N, dst: N) returns (err: Option<Error>)
      modifies this
      ensures log == old(log) + [Call(RenameOp, err)]
      ensures err.None? ==> src in old(files) && files == RenameIn(old(files), src, dst)
      ensures err.Some? ==> err.value.OpError? && err.value.op == RenameOp && files == old(files)
      ensures (err.Some? && IsNotExist(err.value)) <==> src !in old(files)
    {
      var fail: bool :| true;
      if src !in files {
        err := Some(OpError(RenameOp, NotExist));
      } else if fail {
        err := Some(OpError(RenameOp, Failed));
      } else {
        files := RenameIn(files, src, dst);
        err := None;
      }
      log := log + [Call(RenameOp, err)];
    }

    /** `os.Remove`. */
    method Remove(name: N) returns (err: Option<Error>)
      modifies this
      ensures log == old(log) + [Call(RemoveOp, err)]
      ensures err.None? ==> name in old(files) && files == old(files) - {name}
      ensures err.Some? ==> err.value.OpError? && err.value.op == RemoveOp && files == old(files)
      ensures (err.Some? && IsNotExist(err.value)) <==> name !in old(files)
    {
      var fail: bool :| true;
      if name !in files {
        err := Some(OpError(RemoveOp, NotExist));
      } else if fail {
        err := Some(OpError(RemoveOp, Failed));
      } else {
        files := files - {name};
        err := None;
      }
      log := log + [Call(RemoveOp, err)];
    }
  }
}
