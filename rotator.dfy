/**
 * The rotating log writer of log/rotation/rotator.go: a byte sink that
 * appends to a live file and, before a write that would take the file past
 * `maxSize`, retires it into the backup chain `path-1` (newest) …
 * `path-maxBackups` (oldest).
 *
 * File names are relative to the configured path: `Live` is `path`,
 * `Backup(i)` is `path-i`, and `Other` stands for every name outside the
 * rotator's family.
 */
module Rotation {
  import opened Wrappers
  import opened Os

  datatype LogName = Live | Backup(index: int) | Other(path: string)

  type Files = map<LogName, Bytes>

  // ---------------------------------------------------------------------
  // Construction: option functions applied in order over the defaults.
  // ---------------------------------------------------------------------

  /** The configurable part of a Rotator. */
  datatype Settings = Settings(path: string, maxSize: int, maxBackups: int)

  /** An option mutates the settings or fails, aborting construction. */
  type OptionFunc = Settings -> Result<Settings>

  /** The settings after applying `options` in order, or the first failure. */
  function ApplyOptions(s: Settings, options: seq<OptionFunc>): Result<Settings>
    decreases |options|
  {
    if options == [] then Ok(s)
    else match options[0](s)
      case Err(e) => Err(e)
      case Ok(t) => ApplyOptions(t, options[1..])
  }

  /** Applying `a + b` is applying `a`, then `b` to its result. */
  lemma {:induction false} ApplyOptionsAppend(s: Settings, a: seq<OptionFunc>, b: seq<OptionFunc>)
    ensures ApplyOptions(s, a + b)
         == match ApplyOptions(s, a)
            case Err(e) => Err(e)
            case Ok(t) => ApplyOptions(t, b)
    decreases |a|
  {
    if a == [] {
      assert a + b == b;
    } else {
      assert (a + b)[1..] == a[1..] + b;
      match a[0](s)
      case Err(e) =>
      case Ok(t) => ApplyOptionsAppend(t, a[1..], b);
    }
  }

  /**
   * Construction fails with `e` exactly when some option fails with `e` on
   * the settings left by the options before it, all of which succeeded; so
   * the error returned is that of the FIRST failing option.
   */
  lemma {:induction false} ApplyOptionsFirstFailure(s: Settings, options: seq<OptionFunc>, e: Error)
    ensures ApplyOptions(s, options) == Err(e)
        <==> exists k :: 0 <= k < |options| && ApplyOptions(s, options[..k]).Ok?
                         && options[k](ApplyOptions(s, options[..k]).value) == Err(e)
    decreases |options|
  {
    if options == [] {
    } else {
      var tail := options[1..];
      match options[0](s)
      case Err(e0) =>
        assert options[..0] == [];
        if ApplyOptions(s, options) == Err(e) {
          assert ApplyOptions(s, options[..0]).Ok? && options[0](ApplyOptions(s, options[..0]).value) == Err(e);
        }
        forall k | 0 < k < |options| ensures ApplyOptions(s, options[..k]).Err? {
          assert options[..k] == [options[0]] + options[1..k];
          ApplyOptionsAppend(s, [options[0]], options[1..k]);
          assert ApplyOptions(s, [options[0]]) == Err(e0) by {
            assert [options[0]][1..] == [];
          }
        }
      case Ok(t) =>
        ApplyOptionsFirstFailure(t, tail, e);
        forall k | 0 <= k < |tail|
          ensures ApplyOptions(s, options[..k + 1]) == ApplyOptions(t, tail[..k])
        {
          assert options[..k + 1] == [options[0]] + tail[..k];
          ApplyOptionsAppend(s, [options[0]], tail[..k]);
          assert ApplyOptions(s, [options[0]]) == Ok(t) by {
            assert [options[0]][1..] == [];
          }
        }
        if exists k :: 0 <= k < |options| && ApplyOptions(s, options[..k]).Ok?
                       && options[k](ApplyOptions(s, options[..k]).value) == Err(e) {
          var k :| 0 <= k < |options| && ApplyOptions(s, options[..k]).Ok?
                   && options[k](ApplyOptions(s, options[..k]).value) == Err(e);
          assert options[..0] == [];
          assert k != 0;
          assert options[k] == tail[k - 1];
        }
        if ApplyOptions(s, options) == Err(e) {
          var k :| 0 <= k < |tail| && ApplyOptions(t, tail[..k]).Ok?
                   && tail[k](ApplyOptions(t, tail[..k]).value) == Err(e);
          assert options[k + 1] == tail[k];
        }
    }
  }

  // ---------------------------------------------------------------------
  // The rotation, stated two ways: as the code performs it (a remove and a
  // chain of renames in strictly decreasing index order) and key by key.
  // ---------------------------------------------------------------------

  /** The name renamed into `path-i`: `path-(i-1)`, or `path` itself for i == 1. */
  function Src(i: int): LogName {
    if i != 1 then Backup(i - 1) else Live
  }

  /** True of the names `path-1` … `path-n`. */
  predicate InChain(k: LogName, n: int) {
    k.Backup? && 1 <= k.index <= n
  }

  /** The files after the renames for indices `n` down to `i + 1` have been done. */
  function Shift(files: Files, n: int, i: int): Files
    requires 0 <= i <= n
    decreases n - i
  {
    if i == n then files else RenameIn(Shift(files, n, i + 1), Src(i + 1), Backup(i + 1))
  }

  /**
   * Where the content found under `k` after `Shift(_, n, i)` came from: a
   * name of the starting files, or None when the slot has been vacated.
   */
  function Origin(n: int, i: int, k: LogName): Option<LogName> {
    if k.Backup? && i < k.index <= n then Some(Src(k.index))
    else if k == Backup(i) && 1 <= i then None
    else if k == Live && i == 0 then None
    else Some(k)
  }

  function Through(files: Files, o: Option<LogName>): Option<Bytes> {
    match o
    case None => None
    case Some(s) => Get(files, s)
  }

  /**
   * The renames in decreasing order never overwrite a backup before it has
   * moved: after the renames down to `i + 1`, every name holds the content of
   * its origin, and `path-i` (or `path`, once i == 0) is empty.
   */
  lemma {:induction false} ShiftAt(files: Files, n: int, i: int, k: LogName)
    requires 1 <= n && 0 <= i <= n && Backup(n) !in files
    ensures Get(Shift(files, n, i), k) == Through(files, Origin(n, i, k))
    decreases n - i
  {
    if i < n {
      var g := Shift(files, n, i + 1);
      ShiftAt(files, n, i + 1, k);
      ShiftAt(files, n, i + 1, Backup(i + 1));
      ShiftAt(files, n, i + 1, Src(i + 1));
      assert Backup(i + 1) !in g;
      assert Shift(files, n, i) == RenameIn(g, Src(i + 1), Backup(i + 1));
      RenameInAt(g, Src(i + 1), Backup(i + 1), k);
      if k == Backup(i + 1) {
        assert Origin(n, i + 1, Src(i + 1)) == Some(Src(i + 1));
        assert Origin(n, i, k) == Some(Src(i + 1));
      } else if k == Src(i + 1) {
        assert Origin(n, i, k) == None;
      } else {
        assert Origin(n, i, k) == Origin(n, i + 1, k);
      }
    }
  }

  /** What a successful `rotate` leaves on disk, as the code computes it. */
  function RotateResult(files: Files, n: int): Files {
    Retired(files, n)[Live := []]
  }

  /** The files once the live file is retired: removed, or moved into the chain. */
  function Retired(files: Files, n: int): Files {
    if n < 1 then files - {Live} else Shift(files - {Backup(n)}, n, 0)
  }

  /**
   * The rotation, key by key: `path` is a fresh empty file, `path-i` holds what
   * `path-(i-1)` held (`path-1` what `path` held; a missing source leaves the
   * slot missing), the old `path-n` is gone, and nothing else changes.
   */
  ghost predicate IsRotation(before: Files, n: int, after: Files) {
    && Get(after, Live) == Some([])
    && (forall j :: 1 <= j <= n ==> Get(after, Backup(j)) == Get(before, Src(j)))
    && (forall k :: k != Live && !InChain(k, n) ==> Get(after, k) == Get(before, k))
  }

  lemma RotateResultIsRotation(files: Files, n: int)
    ensures IsRotation(files, n, RotateResult(files, n))
  {
    var after := RotateResult(files, n);
    if n >= 1 {
      var start := files - {Backup(n)};
      forall j | 1 <= j <= n
        ensures Get(after, Backup(j)) == Get(files, Src(j))
      {
        ShiftAt(start, n, 0, Backup(j));
      }
      forall k | k != Live && !InChain(k, n)
        ensures Get(after, k) == Get(files, k)
      {
        ShiftAt(start, n, 0, k);
      }
    }
  }

  /** One slot of `RotateResultIsRotation`: `path-j` receives what `path-(j-1)` held. */
  lemma RotatedBackup(files: Files, n: int, j: int)
    requires 1 <= j <= n
    ensures Get(RotateResult(files, n), Backup(j)) == Get(files, Src(j))
  {
    RotateResultIsRotation(files, n);
  }

  /**
   * The states a failed rotation can leave behind: the starting files, or
   * (with backups) the files after the oldest backup was removed and the
   * renames down to some index were done, or (without backups) the files with
   * `path` removed.  None of them holds bytes that were not there before.
   */
  ghost predicate PartialRotation(before: Files, n: int, after: Files) {
    || after == before
    || (n < 1 && after == before - {Live})
    || (n >= 1 && exists i :: 0 <= i <= n && after == Shift(before - {Backup(n)}, n, i))
  }

  /**
   * A call `Write` and `rotate` carry on past: one that succeeded, or a stat,
   * remove or rename whose name does not exist.
   */
  predicate Tolerated(c: Call) {
    c.outcome.None? || (c.op in {StatOp, RemoveOp, RenameOp} && IsNotExist(c.outcome.value))
  }

  /**
   * The calls of a run that stops at its first failure other than a missing
   * name: every call but the last was carried on past, and the run fails
   * exactly when the last call failed that way, with that error wrapped.
   */
  ghost predicate StopsAtFailure(calls: seq<Call>, err: Option<Error>) {
    && calls != []
    && (forall k :: 0 <= k < |calls| - 1 ==> Tolerated(calls[k]))
    && (err.None? <==> Tolerated(Last(calls)))
    && (err.Some? ==> err == WrapOutcome(Last(calls).outcome))
  }

  /** Calls carried on past, followed by a run that stops at its first failure. */
  lemma StopsAfter(done: seq<Call>, calls: seq<Call>, err: Option<Error>)
    requires forall k :: 0 <= k < |done| ==> Tolerated(done[k])
    requires StopsAtFailure(calls, err)
    ensures StopsAtFailure(done + calls, err)
  {
    var all := done + calls;
    assert Last(all) == Last(calls);
    forall k | 0 <= k < |all| - 1 ensures Tolerated(all[k]) {
      if k >= |done| { assert all[k] == calls[k - |done|]; }
    }
  }

  /** A run that did not fail carried on past every one of its calls. */
  lemma Completed(calls: seq<Call>)
    requires StopsAtFailure(calls, None)
    ensures forall k :: 0 <= k < |calls| ==> Tolerated(calls[k])
  {
  }

  /** `errs.Wrap` applied to a call's error, if any. */
  function WrapOutcome(outcome: Option<Error>): Option<Error> {
    if outcome.Some? then Some(Wrapped(outcome.value)) else None
  }

  /** The live file's length, 0 when it does not exist (it is then created empty). */
  function LiveLength(files: Files): nat {
    if Live in files then |files[Live]| else 0
  }

  /** The files once the live file is open: it is created empty when missing. */
  function Opened(files: Files): Files {
    if Live in files then files else files[Live := []]
  }

  /**
   * The backup chain after a run of rotations, where `lives[t]` is what the
   * live file held just before rotation t.
   */
  function RotateEach(files: Files, n: int, lives: seq<Bytes>): Files
    decreases |lives|
  {
    if lives == [] then files
    else RotateEach(RotateResult(files[Live := lives[0]], n), n, lives[1..])
  }

  /**
   * After any run of rotations, `path-j` holds what the live file held just
   * before the j-th most recent rotation, for every j up to `n` that the run
   * reaches; older content has left the chain.
   */
  lemma {:induction false} RotateEachBackups(files: Files, n: int, lives: seq<Bytes>, j: int)
    requires 1 <= j <= n && j <= |lives|
    ensures Get(RotateEach(files, n, lives), Backup(j)) == Some(lives[|lives| - j])
    decreases |lives|
  {
    var written := files[Live := lives[0]];
    var next := RotateResult(written, n);
    assert RotateEach(files, n, lives) == RotateEach(next, n, lives[1..]);
    if j == |lives| {
      RotatedBackup(written, n, 1);
      RotateEachShifts(next, n, lives[1..], j);
    } else {
      RotateEachBackups(next, n, lives[1..], j);
    }
  }

  /** A backup that a run of m rotations cannot push past `path-n` moves up by m slots. */
  lemma {:induction false} RotateEachShifts(files: Files, n: int, lives: seq<Bytes>, j: int)
    requires |lives| < j <= n
    ensures Get(RotateEach(files, n, lives), Backup(j)) == Get(files, Backup(j - |lives|))
    decreases |lives|
  {
    if lives != [] {
      var written := files[Live := lives[0]];
      var next := RotateResult(written, n);
      assert RotateEach(files, n, lives) == RotateEach(next, n, lives[1..]);
      RotateEachShifts(next, n, lives[1..], j);
      var q := j - |lives| + 1;
      RotatedBackup(written, n, q);
      assert Src(q) == Backup(j - |lives|);
    }
  }

  // ---------------------------------------------------------------------
  // The Rotator object.
  // ---------------------------------------------------------------------

  /** `New`: apply the options to the defaults; the first failing option's error aborts. */
  method New(defaults: Settings, options: seq<OptionFunc>) returns (r: Rotator?, err: Option<Error>)
    ensures ApplyOptions(defaults, options).Err? ==> r == null && err == Some(ApplyOptions(defaults, options).error)
    ensures ApplyOptions(defaults, options).Ok? ==>
              && err.None? && r != null && fresh(r)
              && r.Config() == ApplyOptions(defaults, options).value
              && r.file.None? && r.size == 0
  {
    var s := defaults;
    var i := 0;
    while i < |options|
      invariant 0 <= i <= |options|
      invariant ApplyOptions(defaults, options) == ApplyOptions(s, options[i..])
    {
      assert options[i..][1..] == options[i + 1..];
      match options[i](s)
      case Err(e) =>
        return null, Some(e);
      case Ok(t) =>
        s := t;
      i := i + 1;
    }
    r := new Rotator(s);
    err := None;
  }

  class Rotator {
    const path: string
    const maxSize: int
    const maxBackups: int
    /** The open handle on the live file, if any. */
    var file: Option<Handle<LogName>>
    /** The running byte count of the open file. */
    var size: int

    /** While a handle is open it is on `path`, and `size` is the live file's length. */
    ghost predicate Valid(fs: FileSystem<LogName>)
      reads this, fs
    {
      file.Some? ==> file.value == Handle(Live) && Live in fs.files && size == |fs.files[Live]|
    }

    /** The threshold test made before each write, on the length the open file has. */
    predicate Overflows(files: Files, len: int) {
      LiveLength(files) + len > maxSize
    }

    function Config(): Settings {
      Settings(path, maxSize, maxBackups)
    }

    constructor (s: Settings)
      ensures Config() == s && file.None? && size == 0
    {
      path, maxSize, maxBackups := s.path, s.maxSize, s.maxBackups;
      file, size := None, 0;
    }

    /**
     * The opening part of `Write`, made when no handle is open: stat the live
     * file; when it does not exist create its directory and the file, size 0;
     * otherwise reopen it for appending with its current length as the size.
     */
    method Open(fs: FileSystem<LogName>) returns (err: Option<Error>, ghost calls: seq<Call>)
      requires file.None?
      modifies this, fs
      ensures Valid(fs)
      ensures err.None? ==> file == Some(Handle(Live)) && fs.files == Opened(old(fs.files)) && size == LiveLength(old(fs.files))
      ensures err.Some? ==> file.None? && fs.files == old(fs.files)
      // the calls made: the stat first; every failure but a missing file stops with that error, wrapped
      ensures fs.log == old(fs.log) + calls && StopsAtFailure(calls, err)
      ensures err == WrapOutcome(Last(calls).outcome)
      ensures calls[0].op == StatOp
      ensures calls[0].outcome.Some? && !IsNotExist(calls[0].outcome.value) ==> err.Some? && |calls| == 1
      // a missing file: MkdirAll, then the create only if MkdirAll succeeded
      ensures calls[0].outcome.Some? && IsNotExist(calls[0].outcome.value) ==>
                && 2 <= |calls| <= 3 && calls[1].op == MkdirOp
                && (|calls| == 3 <==> calls[1].outcome.None?) && (|calls| == 3 ==> calls[2].op == CreateOp)
      // an existing file: reopened for appending
      ensures calls[0].outcome.None? ==> |calls| == 2 && calls[1].op == OpenOp
    {
      var st := fs.Stat(Live);
      calls := [Call(StatOp, Outcome(st))];
      if st.Err? && IsNotExist(st.error) {
        var merr := fs.MkdirAll();
        calls := calls + [Call(MkdirOp, merr)];
        if merr.Some? {
          return Some(Wrapped(merr.value)), calls;
        }
        var created := fs.Create(Live);
        calls := calls + [Call(CreateOp, Outcome(created))];
        if created.Err? {
          return Some(Wrapped(created.error)), calls;
        }
        file, size := Some(created.value), 0;
      } else if st.Err? {
        return Some(Wrapped(st.error)), calls;
      } else {
        var reopened := fs.OpenAppend(Live);
        calls := calls + [Call(OpenOp, Outcome(reopened))];
        if reopened.Err? {
          return Some(Wrapped(reopened.error)), calls;
        }
        file, size := Some(reopened.value), st.value;
      }
      return None, calls;
    }

    /**
     * `Write`: opens the live file when needed, rotates first if the payload
     * would take the file past `maxSize`, then appends.  The payload lands
     * whole in one file: the current one, or the fresh one after a rotation.
     */
    method Write(fs: FileSystem<LogName>, b: Bytes) returns (n: int, err: Option<Error>, ghost calls: seq<Call>)
      requires Valid(fs)
      modifies this, fs
      ensures Valid(fs)
      ensures 0 <= n <= |b|
      ensures n < |b| ==> err.Some?
      ensures file.Some? ==> (err.Some? <==> n < |b|)
      ensures file.None? ==> n == 0 && err.Some?
      // the calls made: every failure but a missing file or backup stops the write, with that error wrapped
      ensures fs.log == old(fs.log) + calls && StopsAtFailure(calls, err)
      ensures err.None? ==> Last(calls) == Call(WriteOp, None)
      ensures Last(calls).op != WriteOp ==> n == 0 && file.None? && err.Some?
      ensures err.Some? ==> err == WrapOutcome(Last(calls).outcome)
      // without a handle the first call is the stat; a failure other than "does not exist" stops there
      ensures old(file).None? ==> calls[0].op == StatOp
      ensures old(file).None? && calls[0].outcome.Some? && !IsNotExist(calls[0].outcome.value) ==>
                n == 0 && file.None? && fs.files == old(fs.files) && |calls| == 1
      // nothing could be opened, or a rotation was due and failed: the payload went nowhere
      ensures file.None? ==>
                || (old(file).None? && fs.files == old(fs.files))
                || (Overflows(old(fs.files), |b|) && PartialRotation(Opened(old(fs.files)), maxBackups, fs.files))
      // no rotation: appended to the live file, and size grew by exactly n
      ensures file.Some? && !Overflows(old(fs.files), |b|) ==>
                && fs.files == Opened(old(fs.files))[Live := Opened(old(fs.files))[Live] + b[..n]]
                && size == LiveLength(old(fs.files)) + n
      // rotated first, then written whole into the fresh live file
      ensures file.Some? && Overflows(old(fs.files), |b|) ==>
                && fs.files == RotateResult(Opened(old(fs.files)), maxBackups)[Live := b[..n]]
                && size == n
    {
      err, calls := Prepare(fs, |b|);
      if err.Some? {
        return 0, err, calls;
      }
      ghost var start := fs.files;
      ghost var c;
      n, err, c := Append(fs, b);
      StopsAfter(calls, [c], err);
      calls := calls + [c];
      assert start[Live] == [] ==> start[Live] + b[..n] == b[..n];
    }

    /**
     * The part of `Write` before the write proper: open the live file when no
     * handle is open, then rotate if `len` more bytes would take it past
     * `maxSize`.
     */
    method Prepare(fs: FileSystem<LogName>, len: nat) returns (err: Option<Error>, ghost calls: seq<Call>)
      requires Valid(fs)
      modifies this, fs
      ensures Valid(fs)
      ensures fs.log == old(fs.log) + calls
      ensures err.None? ==> forall k :: 0 <= k < |calls| ==> Tolerated(calls[k])
      ensures err.Some? ==> StopsAtFailure(calls, err)
      ensures old(file).None? ==> calls != [] && calls[0].op == StatOp
      ensures old(file).None? && calls[0].outcome.Some? && !IsNotExist(calls[0].outcome.value) ==>
                err.Some? && file.None? && fs.files == old(fs.files) && |calls| == 1
      ensures err.Some? ==>
                && file.None?
                && (|| (old(file).None? && fs.files == old(fs.files))
                    || (Overflows(old(fs.files), len) && PartialRotation(Opened(old(fs.files)), maxBackups, fs.files)))
      ensures err.None? && !Overflows(old(fs.files), len) ==>
                file.Some? && fs.files == Opened(old(fs.files)) && size == LiveLength(old(fs.files))
      ensures err.None? && Overflows(old(fs.files), len) ==>
                file.Some? && fs.files == RotateResult(Opened(old(fs.files)), maxBackups) && size == 0
    {
      calls := [];
      if file.None? {
        err, calls := Open(fs);
        if err.Some? {
          return err, calls;
        }
        Completed(calls);
      }
      assert fs.files == Opened(old(fs.files)) && size == LiveLength(old(fs.files));
      if size + len > maxSize {
        ghost var rotated;
        err, rotated := Rotate(fs);
        StopsAfter(calls, rotated, err);
        calls := calls + rotated;
        if err.Some? {
          return err, calls;
        }
        Completed(calls);
      }
      return None, calls;
    }

    /** The write proper, through the open handle; `size` counts what was written. */
    method Append(fs: FileSystem<LogName>, b: Bytes) returns (n: int, err: Option<Error>, ghost c: Call)
      requires Valid(fs) && file.Some?
      modifies this, fs
      ensures Valid(fs) && file == old(file)
      ensures 0 <= n <= |b| && (err.Some? <==> n < |b|)
      ensures fs.files == old(fs.files)[Live := old(fs.files)[Live] + b[..n]] && size == old(size) + n
      ensures fs.log == old(fs.log) + [c] && c.op == WriteOp && err == WrapOutcome(c.outcome)
    {
      var werr;
      n, werr := fs.Write(file.value, b);
      c := Call(WriteOp, werr);
      err := WrapOutcome(werr);
      size := size + n;
    }

    /** `Close`: a no-op without a handle; otherwise clears it before closing. */
    method Close(fs: FileSystem<LogName>) returns (err: Option<Error>)
      requires Valid(fs)
      modifies this, fs
      ensures Valid(fs) && file.None? && size == old(size) && fs.files == old(fs.files)
      ensures old(file).None? ==> err.None? && fs.log == old(fs.log)
      ensures old(file).Some? ==>
                && |fs.log| == |old(fs.log)| + 1 && fs.log[..|old(fs.log)|] == old(fs.log)
                && Last(fs.log).op == CloseOp && err == WrapOutcome(Last(fs.log).outcome)
    {
      if file.Some? {
        var h := file.value;
        file := None;
        var cerr := fs.Close(h);
        if cerr.Some? {
          return Some(Wrapped(cerr.value));
        }
      }
      return None;
    }

    /**
     * `rotate`: closes and clears the handle (stopping if the close failed),
     * retires the live file into the backup chain and opens a fresh one.
     * Every failure leaves no handle open, so the next Write starts over.
     */
    method Rotate(fs: FileSystem<LogName>) returns (err: Option<Error>, ghost calls: seq<Call>)
      requires Valid(fs)
      modifies this, fs
      ensures Valid(fs)
      ensures err.None? ==> file == Some(Handle(Live)) && size == 0
                            && fs.files == RotateResult(old(fs.files), maxBackups)
                            && IsRotation(old(fs.files), maxBackups, fs.files)
      ensures err.Some? ==> file.None? && PartialRotation(old(fs.files), maxBackups, fs.files)
      // the calls made: the close of the open handle first, and every failure
      // other than a missing source stops the rotation with that error, wrapped
      ensures fs.log == old(fs.log) + calls && StopsAtFailure(calls, err)
      ensures err.None? ==> Last(calls) == Call(CreateOp, None)
      ensures old(file).Some? ==> calls[0].op == CloseOp
      ensures old(file).Some? && calls[0].outcome.Some? ==> |calls| == 1 && fs.files == old(fs.files)
    {
      calls := [];
      if file.Some? {
        var cerr := fs.Close(file.value);
        file := None;
        calls := [Call(CloseOp, cerr)];
        if cerr.Some? {
          return Some(Wrapped(cerr.value)), calls;
        }
      }
      ghost var renewed;
      err, renewed := Renew(fs);
      StopsAfter(calls, renewed, err);
      calls := calls + renewed;
    }

    /** `rotate` once the handle is closed: retire the old files, then create a fresh live file. */
    method Renew(fs: FileSystem<LogName>) returns (err: Option<Error>, ghost calls: seq<Call>)
      requires file.None?
      modifies this, fs
      ensures Valid(fs)
      ensures err.None? ==> file == Some(Handle(Live)) && size == 0
                            && fs.files == RotateResult(old(fs.files), maxBackups)
                            && IsRotation(old(fs.files), maxBackups, fs.files)
      ensures err.Some? ==> file.None? && PartialRotation(old(fs.files), maxBackups, fs.files)
      ensures fs.log == old(fs.log) + calls && StopsAtFailure(calls, err)
      ensures err.None? ==> Last(calls) == Call(CreateOp, None)
    {
      err, calls := Retire(fs);
      if err.Some? {
        return err, calls;
      }
      Completed(calls);
      var created := fs.Create(Live);
      StopsAfter(calls, [Call(CreateOp, Outcome(created))], WrapOutcome(Outcome(created)));
      calls := calls + [Call(CreateOp, Outcome(created))];
      if created.Err? {
        return Some(Wrapped(created.error)), calls;
      }
      file, size := Some(created.value), 0;
      RotateResultIsRotation(old(fs.files), maxBackups);
      return None, calls;
    }

    /**
     * The middle of `rotate`: without backups remove the live file; otherwise
     * remove the oldest backup and rename each name one slot up, in
     * decreasing index order.  A missing source is carried on past; any
     * other failure stops with that error, wrapped.
     */
    method Retire(fs: FileSystem<LogName>) returns (err: Option<Error>, ghost calls: seq<Call>)
      modifies fs
      ensures err.None? ==> fs.files == Retired(old(fs.files), maxBackups)
      ensures err.Some? ==> PartialRotation(old(fs.files), maxBackups, fs.files)
      ensures fs.log == old(fs.log) + calls && StopsAtFailure(calls, err)
    {
      if maxBackups < 1 {
        var rerr := fs.Remove(Live);
        calls := [Call(RemoveOp, rerr)];
        if rerr.Some? && !IsNotExist(rerr.value) {
          return Some(Wrapped(rerr.value)), calls;
        }
      } else {
        var rerr := fs.Remove(Backup(maxBackups));
        calls := [Call(RemoveOp, rerr)];
        if rerr.Some? && !IsNotExist(rerr.value) {
          return Some(Wrapped(rerr.value)), calls;
        }
        ghost var start := fs.files;
        assert start == old(fs.files) - {Backup(maxBackups)};
        var i := maxBackups;
        while i > 0
          invariant 0 <= i <= maxBackups
          invariant fs.files == Shift(start, maxBackups, i)
          invariant fs.log == old(fs.log) + calls && calls != []
          invariant forall k :: 0 <= k < |calls| ==> Tolerated(calls[k])
        {
          var oldPath := if i != 1 then Backup(i - 1) else Live;
          var merr := fs.Rename(oldPath, Backup(i));
          calls := calls + [Call(RenameOp, merr)];
          if merr.Some? && !IsNotExist(merr.value) {
            return Some(Wrapped(merr.value)), calls;
          }
          i := i - 1;
        }
      }
      return None, calls;
    }
  }
}
