// writeFormatted and writeAtomicWithMode: what the disk holds after each
// system call, what a crash there leaves, and what a return leaves.
module AtomicWrite {
  import opened Options

  type Name = string
  type Bytes = string
  type Ino = nat
  type Mode = nat

  // Bytes that were not synced may come out of a crash as anything.
  datatype Inode = Inode(data: Bytes, mode: Mode, synced: bool)

  // `names` is the directory as the process sees it. A rename may or may not
  // have reached the disk when a crash comes, so `held` keeps every inode a
  // name may turn out to have.
  datatype Disk = Disk(names: map<Name, Ino>, inodes: map<Ino, Inode>, held: map<Name, set<Ino>>, next: Ino)

  datatype Op = Stat | Read | WriteBackup | CreateTemp | Write | Sync | Close | Chmod | Rename | Remove

  // What the environment decides: which calls fail, how many bytes a failing
  // write got through, and the temporary name to try.
  datatype Env = Env(fails: Op -> bool, through: Op -> nat, candidate: Name)

  ghost predicate Valid(d: Disk) {
    && (forall n :: n in d.names ==> d.names[n] in d.inodes && n in d.held && d.names[n] in d.held[n])
    && (forall n, i :: n in d.held && i in d.held[n] ==> i in d.inodes)
    && (forall i :: i in d.inodes ==> i < d.next)
    && (forall m, n :: m in d.names && n in d.held && m != n ==> d.names[m] !in d.held[n])
  }

  function Data(d: Disk, n: Name): Option<Bytes> {
    if n in d.names && d.names[n] in d.inodes then Some(d.inodes[d.names[n]].data) else None
  }

  function ModeOf(d: Disk, n: Name): Option<Mode> {
    if n in d.names && d.names[n] in d.inodes then Some(d.inodes[d.names[n]].mode) else None
  }

  // After a crash here the name has some inode it may have, whose bytes are
  // any bytes unless they were synced. Safe: it can only be old or new, where
  // the old state may be that there is no such file.
  ghost predicate CrashSafe(d: Disk, n: Name, was: Option<Bytes>, becomes: Bytes) {
    && (was.Some? ==> n in d.held && d.held[n] != {})
    && (n in d.held ==> forall i :: i in d.held[n] ==>
          i in d.inodes && d.inodes[i].synced && (Some(d.inodes[i].data) == was || d.inodes[i].data == becomes))
  }

  // What reading the name may find after a crash here: the bytes of an inode it
  // may have, anything at all where they were not synced, and no file unless
  // the name is known to have been on the disk before.
  ghost predicate MayFind(d: Disk, known: bool, n: Name, found: Option<Bytes>) {
    if found.None? then !known || n !in d.held || d.held[n] == {}
    else n in d.held && exists i :: i in d.held[n] && Yields(d, i, found.value)
  }

  predicate Yields(d: Disk, i: Ino, data: Bytes) {
    i in d.inodes && d.inodes[i].synced ==> d.inodes[i].data == data
  }

  // Safe says exactly that every crash finds the old state or the new bytes.
  lemma CrashSafeIff(d: Disk, n: Name, was: Option<Bytes>, becomes: Bytes)
    ensures CrashSafe(d, n, was, becomes) <==>
      forall found :: MayFind(d, was.Some?, n, found) ==> found == was || found == Some(becomes)
  {
    if n in d.held && !CrashSafe(d, n, was, becomes) {
      if d.held[n] == {} {
        assert MayFind(d, was.Some?, n, None);
      } else {
        var i :| i in d.held[n] && !(i in d.inodes && d.inodes[i].synced
          && (Some(d.inodes[i].data) == was || d.inodes[i].data == becomes));
        var other := becomes + (if was.Some? then was.value else "") + "x";
        assert other != becomes && Some(other) != was by {
          assert |other| > |becomes| && (was.Some? ==> |other| > |was.value|);
        }
        var data := if i in d.inodes && d.inodes[i].synced then d.inodes[i].data else other;
        assert Yields(d, i, data);
        assert MayFind(d, was.Some?, n, Some(data));
      }
    } else if n !in d.held {
      assert MayFind(d, was.Some?, n, None);
    }
  }

  function Prefix(data: Bytes, k: nat): Bytes {
    if k <= |data| then data[..k] else data
  }

  // ---- System calls ------------------------------------------------------

  // A fresh inode under a name that was free.
  function Create(d: Disk, n: Name, mode: Mode): Disk {
    d.(names := d.names[n := d.next], inodes := d.inodes[d.next := Inode("", mode, false)],
       held := d.held[n := (if n in d.held then d.held[n] else {}) + {d.next}], next := d.next + 1)
  }

  function Update(d: Disk, n: Name, inode: Inode): Disk
    requires n in d.names
  {
    d.(inodes := d.inodes[d.names[n] := inode])
  }

  // os.WriteFile: creates the name or truncates what it names.
  function Overwrite(d: Disk, n: Name, data: Bytes, mode: Mode): Disk {
    if n in d.names && d.names[n] in d.inodes then Update(d, n, Inode(data, d.inodes[d.names[n]].mode, false))
    else
      var c := Create(d, n, mode);
      Update(c, n, Inode(data, mode, false))
  }

  // Atomic replacement of `to` by what `from` names.
  function Move(d: Disk, from: Name, to: Name): Disk
    requires from in d.names
  {
    var i := d.names[from];
    d.(names := (d.names - {from})[to := i],
       held := (d.held - {from})[to := (if to in d.held then d.held[to] else {}) + {i}])
  }

  function Unlink(d: Disk, n: Name): Disk {
    d.(names := d.names - {n}, held := d.held - {n})
  }

  datatype Call =
    | CreateFile(n: Name, mode: Mode)
    | WriteTo(n: Name, data: Bytes)
    | Fsync(n: Name)
    | ChmodTo(n: Name, mode: Mode)
    | RenameOver(from: Name, to: Name)
    | RemoveFile(n: Name)
    | WriteFile(n: Name, data: Bytes, mode: Mode)

  // Closing a file changes nothing on the disk.
  function Do(d: Disk, c: Call): Disk {
    match c
    case CreateFile(n, mode) => Create(d, n, mode)
    case WriteTo(n, data) => if n in d.names &&
      d.names[n] in d.inodes then Update(d, n, Inode(data, d.inodes[d.names[n]].mode, false)) else d
    case Fsync(n) => if n in d.names && d.names[n] in d.inodes then Update(d, n,
      d.inodes[d.names[n]].(synced := true)) else d
    case ChmodTo(n, mode) => if n in d.names &&
      d.names[n] in d.inodes then Update(d, n, d.inodes[d.names[n]].(mode := mode)) else d
    case RenameOver(from, to) => if from in d.names then Move(d, from, to) else d
    case RemoveFile(n) => Unlink(d, n)
    case WriteFile(n, data, mode) => Overwrite(d, n, data, mode)
  }

  function Run(d: Disk, calls: seq<Call>): Disk {
    if calls == [] then d else Do(Run(d, calls[..|calls| - 1]), calls[|calls| - 1])
  }

  // ---- writeAtomicWithMode -----------------------------------------------

  // The calls lead from d0 to d, and every disk before, between and after them
  // is as `ok` says.
  ghost predicate Along(d0: Disk, calls: seq<Call>, d: Disk, ok: Disk -> bool) {
    Run(d0, calls) == d && forall k :: 0 <= k <= |calls| ==> ok(Run(d0, calls[..k]))
  }

  lemma AlongStart(d: Disk, ok: Disk -> bool)
    requires ok(d)
    ensures Along(d, [], d, ok)
  {
  }

  lemma AlongStep(d0: Disk, calls: seq<Call>, d: Disk, c: Call, ok: Disk -> bool)
    requires Along(d0, calls, d, ok) && ok(Do(d, c))
    ensures Along(d0, calls + [c], Do(d, c), ok)
  {
    var more := calls + [c];
    assert more[..|calls|] == calls && more[..|more|] == more;
    forall k | 0 <= k <= |more|
      ensures ok(Run(d0, more[..k]))
    {
      if k <= |calls| {
        assert more[..k] == calls[..k];
      }
    }
  }

  lemma {:induction false} AlongJoin(d0: Disk, a: seq<Call>, mid: Disk, b: seq<Call>, d: Disk, ok: Disk -> bool)
    requires Along(d0, a, mid, ok) && Along(mid, b, d, ok)
    ensures Along(d0, a + b, d, ok)
  {
    if b == [] {
      assert a + b == a;
    } else {
      var front, last := b[..|b| - 1], b[|b| - 1];
      assert b == front + [last];
      AlongPrefix(mid, b, d, ok);
      AlongJoin(d0, a, mid, front, Run(mid, front), ok);
      AlongStep(d0, a + front, Run(mid, front), last, ok);
      assert a + b == (a + front) + [last];
    }
  }

  lemma AlongPrefix(d0: Disk, calls: seq<Call>, d: Disk, ok: Disk -> bool)
    requires Along(d0, calls, d, ok) && calls != []
    ensures Along(d0, calls[..|calls| - 1], Run(d0, calls[..|calls| - 1]), ok) && ok(d)
  {
    var front := calls[..|calls| - 1];
    assert calls[..|calls|] == calls;
    forall k | 0 <= k <= |front|
      ensures ok(Run(d0, front[..k]))
    {
      assert front[..k] == calls[..k];
    }
  }

  lemma AlongWeaken(d0: Disk, calls: seq<Call>, d: Disk, ok: Disk -> bool, weaker: Disk -> bool)
    requires Along(d0, calls, d, ok) && forall x :: ok(x) ==> weaker(x)
    ensures Along(d0, calls, d, weaker)
  {
  }

  // A crash leaves the target old or new, and no file but the target and the
  // temporary is any different from d0.
  ghost function Guarded(d0: Disk, tmp: Name, path: Name, was: Option<Bytes>, becomes: Bytes): Disk -> bool {
    d => CrashSafe(d, path, was, becomes) && OthersKept(d0, d, tmp, path)
  }

  ghost predicate OthersKept(d0: Disk, d: Disk, tmp: Name, path: Name) {
    forall n :: n != tmp && n != path ==> Data(d, n) == Data(d0, n) && ModeOf(d, n) == ModeOf(d0, n)
  }

  // Nothing but the temporary name differs from d0.
  ghost predicate OnlyTemp(d0: Disk, d: Disk, tmp: Name) {
    && Valid(d) && d.next >= d0.next
    && (forall n :: n != tmp ==> (n in d.names <==> n in d0.names) && (n in d.held <==> n in d0.held))
    && (forall n :: n != tmp && n in d0.names ==> d.names[n] == d0.names[n])
    && (forall n :: n != tmp && n in d0.held ==> d.held[n] == d0.held[n])
    && (forall i :: i in d0.inodes ==> i in d.inodes && d.inodes[i] == d0.inodes[i])
  }

  // The state with the temporary in place, holding these bytes.
  ghost predicate Staged(d0: Disk, d: Disk, tmp: Name, data: Bytes, mode: Mode, synced: bool) {
    && OnlyTemp(d0, d, tmp) && tmp in d.names && d.names[tmp] in d.inodes && d.names[tmp] >= d0.next
    && d.inodes[d.names[tmp]] == Inode(data, mode, synced)
    && tmp in d.held && d.held[tmp] == {d.names[tmp]}
  }

  lemma CreateStages(d0: Disk, tmp: Name, mode: Mode)
    requires Valid(d0) && tmp !in d0.names && tmp !in d0.held
    ensures Staged(d0, Create(d0, tmp, mode), tmp, "", mode, false)
  {
  }

  lemma UpdateStages(d0: Disk, d: Disk, tmp: Name, was: Inode, inode: Inode)
    requires Valid(d0) && Staged(d0, d, tmp, was.data, was.mode, was.synced)
    ensures Staged(d0, Update(d, tmp, inode), tmp, inode.data, inode.mode, inode.synced)
  {
  }

  lemma UnlinkRestores(d0: Disk, d: Disk, tmp: Name)
    requires Valid(d0) && OnlyTemp(d0, d, tmp)
    ensures OnlyTemp(d0, Unlink(d, tmp), tmp) && tmp !in Unlink(d, tmp).names
  {
  }

  lemma OnlyTempSafe(d0: Disk, d: Disk, tmp: Name, path: Name, was: Option<Bytes>, becomes: Bytes)
    requires Valid(d0) && OnlyTemp(d0, d, tmp) && tmp != path
    requires CrashSafe(d0, path, was, becomes)
    ensures CrashSafe(d, path, was, becomes)
    ensures Data(d, path) == Data(d0, path) && ModeOf(d, path) == ModeOf(d0, path)
    ensures OthersKept(d0, d, tmp, path)
  {
  }

  // The target now names the staged inode; everything else is as in d0.
  ghost predicate Replaced(d0: Disk, d: Disk, tmp: Name, path: Name, data: Bytes, mode: Mode) {
    && Valid(d) && tmp !in d.names
    && Data(d, path) == Some(data) && ModeOf(d, path) == Some(mode)
    && OthersKept(d0, d, tmp, path)
  }

  lemma MoveReplaces(d0: Disk, d: Disk, tmp: Name, path: Name, was: Option<Bytes>, data: Bytes, mode: Mode)
    requires Valid(d0) && Staged(d0, d, tmp, data, mode, true) && tmp != path
    requires CrashSafe(d0, path, was, data)
    ensures Replaced(d0, Move(d, tmp, path), tmp, path, data, mode)
    ensures CrashSafe(Move(d, tmp, path), path, was, data)
  {
    var m := Move(d, tmp, path);
    MoveValid(d0, d, tmp, path, data, mode);
    forall n | n != tmp && n != path
      ensures Data(m, n) == Data(d0, n) && ModeOf(m, n) == ModeOf(d0, n)
    {
      assert n in m.names <==> n in d0.names;
    }
  }

  // A rename may be lost in a crash: whatever could be found before still can,
  // and the new bytes as well.
  lemma MoveMayBeLost(d: Disk, from: Name, to: Name, known: bool, found: Option<Bytes>)
    requires from in d.names && from != to && d.names[from] in d.inodes
    requires known ==> to in d.held && d.held[to] != {}
    ensures MayFind(d, known, to, found) ==> MayFind(Move(d, from, to), known, to, found)
    ensures MayFind(Move(d, from, to), known, to, Some(d.inodes[d.names[from]].data))
  {
    var m := Move(d, from, to);
    assert d.names[from] in m.held[to];
    if MayFind(d, known, to, found) && found.Some? {
      var i :| i in d.held[to] && Yields(d, i, found.value);
      assert i in m.held[to] && Yields(m, i, found.value);
    }
  }

  lemma MoveValid(d0: Disk, d: Disk, tmp: Name, path: Name, data: Bytes, mode: Mode)
    requires Valid(d0) && Staged(d0, d, tmp, data, mode, true) && tmp != path
    ensures Valid(Move(d, tmp, path))
  {
    var m := Move(d, tmp, path);
    forall a, b | a in m.names && b in m.held && a != b
      ensures m.names[a] !in m.held[b]
    {
      assert a != path ==> d.names[a] != d.names[tmp];
    }
  }

  // Without the fsync the rename could bring in bytes that never reached the
  // disk: the order of the stages is what makes the protocol safe.
  lemma UnsyncedMoveUnsafe(d0: Disk, d: Disk, tmp: Name, path: Name, was: Option<Bytes>, data: Bytes, mode: Mode)
    requires Valid(d0) && Staged(d0, d, tmp, data, mode, false) && tmp != path
    ensures !CrashSafe(Move(d, tmp, path), path, was, data)
  {
    assert d.names[tmp] in Move(d, tmp, path).held[path];
  }

  datatype WriteResult = Written | Failed(op: Op)

  // A call in progress: the temporary holds `inode`, every state so far was safe.
  ghost predicate InProgress(d0: Disk, d: Disk, tmp: Name, path: Name, inode: Inode, was: Option<Bytes>,
                             becomes: Bytes, calls: seq<Call>) {
    && Valid(d0) && tmp != path && CrashSafe(d0, path, was, becomes)
    && Staged(d0, d, tmp, inode.data, inode.mode, inode.synced)
    && Along(d0, calls, d, Guarded(d0, tmp, path, was, becomes))
  }

  // What a failed call leaves: the target as it was, and no temporary unless
  // removing it failed too.
  ghost predicate RolledBack(d0: Disk, d: Disk, tmp: Name, path: Name, leaked: bool) {
    && OnlyTemp(d0, d, tmp)
    && Data(d, path) == Data(d0, path) && ModeOf(d, path) == ModeOf(d0, path)
    && (leaked <==> tmp in d.names)
  }

  const TEMP_MODE: Mode := 0x180

  // The stages in order; any failure removes the temporary again. `leaked`
  // says that the removal failed too, which the code ignores.
  method WriteAtomicWithMode(d0: Disk, path: Name, data: Bytes, mode: Mode, env: Env, ghost was: Option<Bytes>)
    returns (d: Disk, result: WriteResult, leaked: bool, ghost calls: seq<Call>)
    requires Valid(d0) && env.candidate != path && env.candidate !in d0.held
    requires CrashSafe(d0, path, was, data)
    ensures Along(d0, calls, d, Guarded(d0, env.candidate, path, was, data)) && Valid(d)
    ensures result.Written? ==> Replaced(d0, d, env.candidate, path, data, mode)
    ensures result.Written? ==>
      var tmp := env.candidate;
      calls == [CreateFile(tmp, 0x180), WriteTo(tmp, data), Fsync(tmp), ChmodTo(tmp, mode), RenameOver(tmp, path)]
    ensures result.Failed? ==> RolledBack(d0, d, env.candidate, path, leaked)
    ensures leaked <==>
      && env.fails(Remove) && !env.fails(CreateTemp)
      && (env.fails(Write) || env.fails(Sync) || env.fails(Close) || env.fails(Chmod) || env.fails(Rename))
    ensures result == if env.fails(CreateTemp) then Failed(CreateTemp)
      else if env.fails(Write) then Failed(Write)
      else if env.fails(Sync) then Failed(Sync)
      else if env.fails(Close) then Failed(Close)
      else if env.fails(Chmod) then Failed(Chmod)
      else if env.fails(Rename) then Failed(Rename)
      else Written
  {
    var tmp := env.candidate;
    assert tmp !in d0.names;
    if env.fails(CreateTemp) {
      OnlyTempSafe(d0, d0, tmp, path, was, data);
      AlongStart(d0, Guarded(d0, tmp, path, was, data));
      return d0, Failed(CreateTemp), false, [];
    }
    d, calls := Create(d0, tmp, TEMP_MODE), [CreateFile(tmp, TEMP_MODE)];
    Begin(d0, tmp, path, was, data);
    var failed;
    ghost var inode;
    d, failed, inode, calls := FillTemp(d0, d, tmp, path, data, mode, env, was, calls);
    if failed.None? && env.fails(Rename) {
      failed := Some(Rename);
    }
    if failed.Some? {
      d, leaked, calls := Cleanup(d0, d, tmp, path, env, inode, was, data, calls);
      return d, Failed(failed.value), leaked, calls;
    }
    End(d0, d, tmp, path, was, data, mode, calls);
    AllFive(CreateFile(tmp, TEMP_MODE), WriteTo(tmp, data), Fsync(tmp), ChmodTo(tmp, mode), RenameOver(tmp, path));
    return Move(d, tmp, path), Written, false, calls + [RenameOver(tmp, path)];
  }

  lemma AllFive(a: Call, b: Call, c: Call, d: Call, e: Call)
    ensures [a] + [b, c, d] + [e] == [a, b, c, d, e]
  {
  }

  lemma Begin(d0: Disk, tmp: Name, path: Name, was: Option<Bytes>, data: Bytes)
    requires Valid(d0) && tmp !in d0.names && tmp !in d0.held && tmp != path && CrashSafe(d0, path, was, data)
    ensures InProgress(d0, Create(d0, tmp, TEMP_MODE), tmp, path, Inode("", TEMP_MODE, false), was, data,
      [CreateFile(tmp, TEMP_MODE)])
  {
    CreateStages(d0, tmp, TEMP_MODE);
    OnlyTempSafe(d0, Create(d0, tmp, TEMP_MODE), tmp, path, was, data);
    AlongStart(d0, Guarded(d0, tmp, path, was, data));
    AlongStep(d0, [], d0, CreateFile(tmp, TEMP_MODE), Guarded(d0, tmp, path, was, data));
    assert [] + [CreateFile(tmp, TEMP_MODE)] == [CreateFile(tmp, TEMP_MODE)];
  }

  lemma End(d0: Disk, d: Disk, tmp: Name, path: Name, was: Option<Bytes>, data: Bytes, mode: Mode, calls: seq<Call>)
    requires InProgress(d0, d, tmp, path, Inode(data, mode, true), was, data, calls)
    ensures Replaced(d0, Move(d, tmp, path), tmp, path, data, mode)
    ensures Along(d0, calls + [RenameOver(tmp, path)], Move(d, tmp, path), Guarded(d0, tmp, path, was, data))
  {
    MoveReplaces(d0, d, tmp, path, was, data, mode);
    AlongStep(d0, calls, d, RenameOver(tmp, path), Guarded(d0, tmp, path, was, data));
  }

  // Write, fsync, close, chmod: the temporary is whole, on disk and has its
  // mode, or the first call that fails is returned.
  method FillTemp(d0: Disk, start: Disk, tmp: Name, path: Name, data: Bytes, mode: Mode, env: Env,
                  ghost was: Option<Bytes>, ghost before: seq<Call>)
    returns (d: Disk, failed: Option<Op>, ghost inode: Inode, ghost calls: seq<Call>)
    requires InProgress(d0, start, tmp, path, Inode("", TEMP_MODE, false), was, data, before)
    ensures InProgress(d0, d, tmp, path, inode, was, data, calls)
    ensures failed.None? ==> inode == Inode(data, mode, true)
    ensures failed == if env.fails(Write) then Some(Write)
      else if env.fails(Sync) then Some(Sync)
      else if env.fails(Close) then Some(Close)
      else if env.fails(Chmod) then Some(Chmod)
      else None
    ensures failed.None? ==> calls == before + [WriteTo(tmp, data), Fsync(tmp), ChmodTo(tmp, mode)]
  {
    inode := Inode("", TEMP_MODE, false);
    if env.fails(Write) {
      var part := Prefix(data, env.through(Write));
      d, inode, calls := OnTemp(d0, start, tmp, path, inode, WriteTo(tmp, part), was, data, before);
      return d, Some(Write), inode, calls;
    }
    d, inode, calls := OnTemp(d0, start, tmp, path, inode, WriteTo(tmp, data), was, data, before);
    if env.fails(Sync) {
      return d, Some(Sync), inode, calls;
    }
    d, inode, calls := OnTemp(d0, d, tmp, path, inode, Fsync(tmp), was, data, calls);
    if env.fails(Close) {
      return d, Some(Close), inode, calls;
    }
    if env.fails(Chmod) {
      return d, Some(Chmod), inode, calls;
    }
    d, inode, calls := OnTemp(d0, d, tmp, path, inode, ChmodTo(tmp, mode), was, data, calls);
    ThreeMore(before, WriteTo(tmp, data), Fsync(tmp), ChmodTo(tmp, mode));
    return d, None, inode, calls;
  }

  lemma ThreeMore(before: seq<Call>, a: Call, b: Call, c: Call)
    ensures before + [a] + [b] + [c] == before + [a, b, c]
  {
  }

  predicate ChangesInode(c: Call, tmp: Name) {
    (c.WriteTo? || c.Fsync? || c.ChmodTo?) && c.n == tmp
  }

  function Changed(inode: Inode, c: Call): Inode {
    match c
    case WriteTo(_, data) => Inode(data, inode.mode, false)
    case Fsync(_) => inode.(synced := true)
    case ChmodTo(_, mode) => inode.(mode := mode)
    case _ => inode
  }

  // One change to the temporary's inode.
  method OnTemp(d0: Disk, d: Disk, tmp: Name, path: Name, ghost inode: Inode, c: Call, ghost was: Option<Bytes>,
                ghost data: Bytes, ghost before: seq<Call>)
    returns (d': Disk, ghost inode': Inode, ghost calls: seq<Call>)
    requires InProgress(d0, d, tmp, path, inode, was, data, before) && ChangesInode(c, tmp)
    ensures d' == Do(d, c) && inode' == Changed(inode, c) && calls == before + [c]
    ensures InProgress(d0, d', tmp, path, inode', was, data, calls)
  {
    d', inode', calls := Do(d, c), Changed(inode, c), before + [c];
    assert d.inodes[d.names[tmp]] == inode;
    assert d' == Update(d, tmp, inode');
    UpdateStages(d0, d, tmp, inode, inode');
    OnlyTempSafe(d0, d', tmp, path, was, data);
    AlongStep(d0, before, d, c, Guarded(d0, tmp, path, was, data));
  }

  method Cleanup(d0: Disk, d: Disk, tmp: Name, path: Name, env: Env, ghost inode: Inode, ghost was: Option<Bytes>,
                 ghost becomes: Bytes, ghost before: seq<Call>)
    returns (d': Disk, leaked: bool, ghost calls: seq<Call>)
    requires InProgress(d0, d, tmp, path, inode, was, becomes, before)
    ensures RolledBack(d0, d', tmp, path, leaked)
    ensures Along(d0, calls, d', Guarded(d0, tmp, path, was, becomes))
    ensures leaked == env.fails(Remove)
  {
    d', leaked, calls := d, env.fails(Remove), before;
    if leaked {
      OnlyTempSafe(d0, d, tmp, path, was, becomes);
    } else {
      Undo(d0, d, tmp, path, inode, was, becomes, before);
      d', calls := Unlink(d, tmp), before + [RemoveFile(tmp)];
    }
  }

  lemma Undo(d0: Disk, d: Disk, tmp: Name, path: Name, inode: Inode, was: Option<Bytes>, becomes: Bytes,
             before: seq<Call>)
    requires InProgress(d0, d, tmp, path, inode, was, becomes, before)
    ensures RolledBack(d0, Unlink(d, tmp), tmp, path, false)
    ensures Along(d0, before + [RemoveFile(tmp)], Unlink(d, tmp), Guarded(d0, tmp, path, was, becomes))
  {
    UnlinkRestores(d0, d, tmp);
    OnlyTempSafe(d0, Unlink(d, tmp), tmp, path, was, becomes);
    AlongStep(d0, before, d, RemoveFile(tmp), Guarded(d0, tmp, path, was, becomes));
  }

  // ---- writeFormatted ----------------------------------------------------

  const DEFAULT_MODE: Mode := 0x1A4

  datatype FormatResult = FormatError | WriteError(op: Op) | Success

  lemma CreateValid(d: Disk, n: Name, mode: Mode)
    requires Valid(d) && n !in d.names
    ensures Valid(Create(d, n, mode))
  {
    var c := Create(d, n, mode);
    forall a, b | a in c.names && b in c.held && a != b
      ensures c.names[a] !in c.held[b]
    {
      if a == n {
        assert b in d.held && c.held[b] == d.held[b] && d.next !in d.inodes;
      }
    }
  }

  lemma OverwriteElsewhere(d: Disk, n: Name, data: Bytes, mode: Mode, path: Name, was: Option<Bytes>, becomes: Bytes)
    requires Valid(d) && n != path && CrashSafe(d, path, was, becomes)
    ensures Valid(Overwrite(d, n, data, mode)) && CrashSafe(Overwrite(d, n, data, mode), path, was, becomes)
    ensures Data(Overwrite(d, n, data, mode), n) == Some(data)
    ensures forall m :: m != n ==>
      Data(Overwrite(d, n, data, mode), m) == Data(d, m) && ModeOf(Overwrite(d, n, data, mode), m) == ModeOf(d, m)
    ensures Overwrite(d, n, data, mode).held.Keys == d.held.Keys + {n}
  {
    var o := Overwrite(d, n, data, mode);
    if n !in d.names {
      CreateValid(d, n, mode);
    }
    assert n in o.names && o.inodes[o.names[n]].data == data;
    forall m | m != n
      ensures Data(o, m) == Data(d, m) && ModeOf(o, m) == ModeOf(d, m)
    {
      if m in d.names {
        assert n in d.names ==> d.names[m] != d.names[n];
      }
    }
    forall i | path in d.held && i in d.held[path]
      ensures i in o.inodes && o.inodes[i] == d.inodes[i]
    {
      assert n in d.names ==> d.names[n] !in d.held[path];
      assert i in d.inodes && i < d.next;
    }
    assert path in o.held <==> path in d.held;
  }

  // A crash leaves the target old or new; with a backup asked for, the target
  // still reads as it was or `.bak` holds what it was.
  ghost function Protected(path: Name, was: Option<Bytes>, becomes: Bytes, backup: bool): Disk -> bool {
    d => CrashSafe(d, path, was, becomes) && (backup ==> Data(d, path) == was || Data(d, path + ".bak") == was)
  }

  // `formatted` is gofmt's output, or nothing when it refuses the source.
  method WriteFormatted(d0: Disk, path: Name, formatted: Option<Bytes>, backup: bool, env: Env)
    returns (d: Disk, result: FormatResult, leaked: bool, ghost calls: seq<Call>)
    requires Valid(d0)
    requires env.candidate != path && env.candidate != path + ".bak" && env.candidate !in d0.held
    requires formatted.Some? ==> CrashSafe(d0, path, Data(d0, path), formatted.value)
    ensures result == FormatError ==> d == d0 && calls == []
    ensures formatted.Some? ==> Along(d0, calls, d, Protected(path, Data(d0, path), formatted.value, backup))
    ensures result == if formatted.None? then FormatError
      else if env.fails(Stat) then WriteError(Stat)
      else if backup && (env.fails(Read) || path !in d0.names) then WriteError(Read)
      else if backup && env.fails(WriteBackup) then WriteError(WriteBackup)
      else if env.fails(CreateTemp) then WriteError(CreateTemp)
      else if env.fails(Write) then WriteError(Write)
      else if env.fails(Sync) then WriteError(Sync)
      else if env.fails(Close) then WriteError(Close)
      else if env.fails(Chmod) then WriteError(Chmod)
      else if env.fails(Rename) then WriteError(Rename)
      else Success
    ensures result.Success? ==>
      && Data(d, path) == formatted && env.candidate !in d.names
      && ModeOf(d, path) == if path in d0.names then ModeOf(d0, path) else Some(0x1A4)
    ensures result.Success? ==> calls != [] && calls[|calls| - 1] == RenameOver(env.candidate, path)
    ensures result.Success? && backup ==>
      && path in d0.names && d0.names[path] in d0.inodes
      && calls[0] == WriteFile(path + ".bak", Data(d0, path).value, ModeOf(d0, path).value)
    ensures !result.Success? ==> Data(d, path) == Data(d0, path) && ModeOf(d, path) == ModeOf(d0, path)
    ensures leaked <==> env.candidate in d.names
    ensures leaked <==>
      && result.WriteError? && result.op in {Write, Sync, Close, Chmod, Rename} && env.fails(Remove)
    ensures backup && result.Success? ==>
      && Data(d, path + ".bak") == Data(d0, path)
      && ModeOf(d, path + ".bak") == ModeOf(d0, if path + ".bak" in d0.names then path + ".bak" else path)
    ensures !backup ==> Data(d, path + ".bak") == Data(d0, path + ".bak")
    ensures forall n :: n != path && n != path + ".bak" && n != env.candidate ==> Data(d, n) == Data(d0, n)
  {
    d, leaked, calls := d0, false, [];
    assert env.candidate !in d0.names;
    if formatted.None? {
      return d0, FormatError, false, [];
    }
    ghost var was := Data(d0, path);
    ghost var ok := Protected(path, was, formatted.value, backup);
    AlongStart(d0, ok);
    var mode := DEFAULT_MODE;
    if env.fails(Stat) {
      return d0, WriteError(Stat), false, [];
    }
    if path in d0.names {
      mode := d0.inodes[d0.names[path]].mode;
    }
    BakDiffers(path);
    if backup {
      var failed;
      d, failed, calls := BackUp(d0, path, mode, env, formatted.value);
      if failed.Some? {
        return d, WriteError(failed.value), false, calls;
      }
    }
    ghost var mid := d;
    var r;
    ghost var more;
    d, r, leaked, more := WriteAtomicWithMode(d, path, formatted.value, mode, env, was);
    AlongWeaken(mid, more, d, Guarded(mid, env.candidate, path, was, formatted.value), ok);
    AlongJoin(d0, calls, mid, more, d, ok);
    calls := calls + more;
    if r.Failed? {
      TempAside(mid, d, env.candidate);
      return d, WriteError(r.op), leaked, calls;
    }
    return d, Success, leaked, calls;
  }

  // Copies the file to `<path>.bak`; a failing write may leave part of it.
  method BackUp(d0: Disk, path: Name, mode: Mode, env: Env, ghost becomes: Bytes)
    returns (d: Disk, failed: Option<Op>, ghost calls: seq<Call>)
    requires Valid(d0) && CrashSafe(d0, path, Data(d0, path), becomes)
    requires env.candidate != path + ".bak" && env.candidate !in d0.held
    ensures Valid(d) && Along(d0, calls, d, Protected(path, Data(d0, path), becomes, true))
    ensures env.candidate !in d.held && CrashSafe(d, path, Data(d0, path), becomes)
    ensures failed == if env.fails(Read) || path !in d0.names then Some(Read)
      else if env.fails(WriteBackup) then Some(WriteBackup)
      else None
    ensures failed.None? ==>
      && path in d0.names && calls == [WriteFile(path + ".bak", d0.inodes[d0.names[path]].data, mode)]
      && Data(d, path + ".bak") == Data(d0, path)
      && ModeOf(d, path + ".bak") == if path + ".bak" in d0.names then ModeOf(d0, path + ".bak") else Some(mode)
    ensures forall n :: n != path + ".bak" ==> Data(d, n) == Data(d0, n) && ModeOf(d, n) == ModeOf(d0, n)
  {
    ghost var ok := Protected(path, Data(d0, path), becomes, true);
    AlongStart(d0, ok);
    BakDiffers(path);
    if env.fails(Read) || path !in d0.names {
      return d0, Some(Read), [];
    }
    var orig := d0.inodes[d0.names[path]].data;
    var copy := if env.fails(WriteBackup) then Prefix(orig, env.through(WriteBackup)) else orig;
    OverwriteElsewhere(d0, path + ".bak", copy, mode, path, Data(d0, path), becomes);
    AlongStep(d0, [], d0, WriteFile(path + ".bak", copy, mode), ok);
    d, calls := Overwrite(d0, path + ".bak", copy, mode), [WriteFile(path + ".bak", copy, mode)];
    assert [] + calls == calls;
    failed := if env.fails(WriteBackup) then Some(WriteBackup) else None;
  }

  lemma BakDiffers(path: Name)
    ensures path + ".bak" != path
  {
    assert |path + ".bak"| == |path| + 4;
  }

  lemma TempAside(d0: Disk, d: Disk, tmp: Name)
    requires Valid(d0) && OnlyTemp(d0, d, tmp)
    ensures forall n :: n != tmp ==> Data(d, n) == Data(d0, n)
  {
  }
}
