/** The file system calls, each as a transition of the state in `FileStack`. */
module LibOs {
  import opened Bytes
  import opened Options
  import opened FdTab
  import opened Fatfs
  import opened FileStack

  datatype Error =
    | BadFd
    | NoExistFd
    | NoReadPerm
    | NoWritePerm
    | UndefinedOperation
    | FatErr(fat: FatError)
    | NetErr

  /** Writing through a descriptor is an event of the state machine. */
  lemma WroteEvent(s: Sys, fd: nat, handle: nat, data: seq<byte>, s': Sys)
    requires fd in s.files && s.files[fd].src == FatFS(handle)
    requires s'.files == s.files && s'.sockets == s.sockets
    requires Written(s.table, s.disk, handle, data, s'.table, s'.disk)
    ensures Enabled(s, Wrote(fd, data)) && After(s, Wrote(fd, data)) == s'
  {
  }

  class Kernel {
    const fdtab: FdTable
    const fat: FileService
    var sockets: set<nat>

    ghost function State(): Sys
      reads this, fdtab, fat
    {
      Sys(fdtab.Files(), fat.table, fat.disk, sockets)
    }

    ghost predicate Valid()
      reads this, fdtab, fat
    {
      fat.Valid() && Owned(State())
    }

    constructor (image: Disk)
      ensures Valid() && State() == Boot(image)
      ensures fresh(fdtab) && fresh(fat)
    {
      fdtab := new FdTable();
      fat := new FileService(image);
      sockets := {};
    }

    method Open(path: string, create: bool, mode: OpenMode) returns (r: Result<nat, Error>, ghost e: Event)
      requires Valid()
      modifies fdtab, fat
      ensures Enabled(old(State()), e) && State() == After(old(State()), e) && Valid()
      ensures e == if r.Ok? then Opened(path, create, mode, r.value) else Failed({})
      ensures !create && path !in old(fat.disk) ==> r.Err?
    {
      ghost var before := State();
      var raw := fat.Open(path, create);
      if raw.Err? {
        r, e := Err(FatErr(raw.error)), Failed({});
        return;
      }
      var fd := fdtab.AddFile(File(mode, FatFS(raw.value)));
      r, e := Ok(fd), Opened(path, create, mode, fd);
      EventKeepsOwned(before, e);
    }

    /** Closing a descriptor in use finds the handle behind it live. */
    method Close(fd: nat) returns (r: Result<(), Error>, ghost e: Event)
      requires Valid()
      modifies fdtab, fat
      ensures Enabled(old(State()), e) && State() == After(old(State()), e) && Valid()
      ensures e == if fd in old(State()).files then Closed(fd) else Failed({})
      ensures fd <= 2 ==> r == Err(BadFd)
      ensures fd > 2 ==> (r == Err(NoExistFd) <==> fd !in old(State()).files)
      ensures fd in old(State()).files && old(State()).files[fd].src.FatFS? ==> r.Ok?
    {
      ghost var before := State();
      if fd <= 2 {
        r, e := Err(BadFd), Failed({});
        return;
      }
      var file := fdtab.RemoveFile(fd);
      if file.None? {
        assert before.files - {fd} == before.files;
        r, e := Err(NoExistFd), Failed({});
        return;
      }
      e := Closed(fd);
      assert HandleLive(before, file.value.src);
      EventKeepsOwned(before, e);
      match file.value.src
      case FatFS(handle) =>
        assert HandleLive(before, file.value.src);
        var closed := fat.Close(handle);
        assert closed.Ok?;
        r := Ok(());
      case Net(sock) =>
        var netFails: bool := *;
        r := if netFails then Err(NetErr) else Ok(());
    }

    /** The network stack allocates a socket and then may fail, which leaves it allocated. */
    method AllocateSocket() returns (r: Option<nat>, ghost leaked: set<nat>)
      modifies this
      ensures leaked !! old(sockets)
      ensures r.Some? ==> r.value !in old(sockets) && leaked == {} && sockets == old(sockets) + {r.value}
      ensures r.None? ==> sockets == old(sockets) + leaked
    {
      var early: bool, late: bool := *, *;
      if early {
        r, leaked := None, {};
        return;
      }
      FreshSocket(sockets);
      var sock: nat :| sock !in sockets;
      sockets := sockets + {sock};
      if late {
        r, leaked := None, {sock};
      } else {
        r, leaked := Some(sock), {};
      }
    }

    method Connect() returns (r: Result<nat, Error>, ghost e: Event)
      requires Valid()
      modifies this, fdtab
      ensures Enabled(old(State()), e) && State() == After(old(State()), e) && Valid()
      ensures r.Ok? ==> e.Connected? && e.fd == r.value
      ensures r.Ok? ==> r.value in State().files && State().files[r.value].mode == OpenMode(true, true)
      ensures r.Err? ==> e.Failed?
    {
      ghost var before := State();
      var sock, leaked := AllocateSocket();
      if sock.None? {
        r, e := Err(NetErr), Failed(leaked);
        EventKeepsOwned(before, e);
        return;
      }
      var fd := fdtab.AddFile(File(RDWR, Net(sock.value)));
      r, e := Ok(fd), Connected(fd, sock.value);
      EventKeepsOwned(before, e);
    }

    method Bind() returns (r: Result<nat, Error>, ghost e: Event)
      requires Valid()
      modifies this, fdtab
      ensures Enabled(old(State()), e) && State() == After(old(State()), e) && Valid()
      ensures r.Ok? ==> e.Bound? && e.fd == r.value
      ensures r.Ok? ==> r.value in State().files && State().files[r.value].mode == OpenMode(true, false)
      ensures r.Err? ==> e.Failed?
    {
      ghost var before := State();
      var sock, leaked := AllocateSocket();
      if sock.None? {
        r, e := Err(NetErr), Failed(leaked);
        EventKeepsOwned(before, e);
        return;
      }
      var fd := fdtab.AddFile(File(RD, Net(sock.value)));
      r, e := Ok(fd), Bound(fd, sock.value);
      EventKeepsOwned(before, e);
    }

    /** The entry of the listening descriptor is rewritten to a new socket, and the old,
        now connected socket moves to a new descriptor. */
    method Accept(listen: nat) returns (r: Result<nat, Error>, ghost e: Event)
      requires Valid()
      modifies this, fdtab
      ensures Enabled(old(State()), e) && State() == After(old(State()), e) && Valid()
      ensures r.Ok? ==> e.Accepted? && e.listen == listen && e.fd == r.value
      ensures r.Ok? ==> r.value in State().files && State().files[r.value].mode == OpenMode(true, true)
      ensures r.Err? ==> e.Failed?
      ensures listen <= 2 ==> r == Err(BadFd)
      ensures listen > 2 && listen !in old(State()).files ==> r == Err(NoExistFd)
      ensures listen in old(State()).files && old(State()).files[listen].src.FatFS? ==> r == Err(UndefinedOperation)
    {
      hide FilesOf;
      ghost var before := State();
      if listen <= 2 {
        r, e := Err(BadFd), Failed({});
        return;
      }
      var file := fdtab.GetFile(listen);
      if file.None? {
        r, e := Err(NoExistFd), Failed({});
        return;
      }
      if file.value.src.FatFS? {
        r, e := Err(UndefinedOperation), Failed({});
        return;
      }
      var sock, leaked := AllocateSocket();
      if sock.None? {
        r, e := Err(NetErr), Failed(leaked);
        EventKeepsOwned(before, e);
        return;
      }
      fdtab.SetSource(listen, Net(sock.value));
      assert fdtab.Files().Keys == before.files.Keys;
      var fd := fdtab.AddFile(File(RDWR, file.value.src));
      r, e := Ok(fd), Accepted(listen, fd, sock.value);
      EventKeepsOwned(before, e);
    }

    method Lseek(fd: nat, pos: nat) returns (r: Result<(), Error>, ghost e: Event)
      requires Valid()
      modifies fat`table
      ensures Enabled(old(State()), e) && State() == After(old(State()), e) && Valid()
      ensures r.Ok? ==> FatBacked(old(State()), fd)
      ensures r.Ok? ==>
        e == Moved(fd, Min(pos, |fat.disk[old(fat.table)[old(State()).files[fd].src.handle].value.path]|))
      ensures r.Err? ==> e == Failed({})
      ensures fd <= 2 ==> r == Err(BadFd)
      ensures fd > 2 && fd !in old(State()).files ==> r == Err(NoExistFd)
      ensures fd in old(State()).files && old(State()).files[fd].src.Net? ==> r == Err(UndefinedOperation)
    {
      ghost var before := State();
      e := Failed({});
      if fd <= 2 {
        return Err(BadFd), e;
      }
      var file := fdtab.GetFile(fd);
      if file.None? {
        return Err(NoExistFd), e;
      }
      match file.value.src
      case FatFS(handle) =>
        assert HandleLive(before, file.value.src);
        var moved := fat.Seek(handle, pos);
        if moved.Err? {
          return Err(FatErr(moved.error)), e;
        }
        r, e := Ok(()), Moved(fd, fat.table[handle].value.cursor);
        EventKeepsOwned(before, e);
      case Net(_) =>
        r := Err(UndefinedOperation);
    }

    /** Reading needs an open, readable descriptor; from a file it delivers the bytes at the
        cursor, as many as there are and the buffer holds. */
    method Read(fd: nat, buf: array<byte>) returns (r: Result<nat, Error>, ghost e: Event)
      requires Valid()
      modifies fat`table, buf
      ensures Enabled(old(State()), e) && State() == After(old(State()), e) && Valid()
      ensures fd <= 2 ==> r == Err(BadFd)
      ensures fd > 2 && fd !in old(State()).files ==> r == Err(NoExistFd)
      ensures fd in old(State()).files && !old(State()).files[fd].mode.rd ==> r == Err(NoReadPerm)
      ensures e == Failed({}) || (e.Moved? && e.fd == fd)
      ensures r.Ok? && FatBacked(old(State()), fd) ==>
        var file := old(fat.table)[old(State()).files[fd].src.handle].value;
        var bytes := BytesAt(fat.disk[file.path], file.cursor, buf.Length);
        && r.value == |bytes|
        && e == Moved(fd, file.cursor + |bytes|)
        && buf[..] == bytes + old(buf[..])[|bytes|..]
    {
      ghost var before := State();
      e := Failed({});
      if fd <= 2 {
        return Err(BadFd), e;
      }
      var file := fdtab.GetFile(fd);
      if file.None? {
        return Err(NoExistFd), e;
      }
      if !file.value.mode.rd {
        return Err(NoReadPerm), e;
      }
      match file.value.src
      case FatFS(handle) =>
        assert HandleLive(before, file.value.src);
        var n := fat.Read(handle, buf);
        e := Moved(fd, fat.table[handle].value.cursor);
        EventKeepsOwned(before, e);
        r := if n.Ok? then Ok(n.value) else Err(FatErr(n.error));
      case Net(sock) =>
        r := Receive(buf);
    }

    method Receive(buf: array<byte>) returns (r: Result<nat, Error>)
      modifies buf
      ensures r.Ok? ==> r.value <= buf.Length
    {
      var netFails: bool := *;
      if netFails {
        return Err(NetErr);
      }
      var data: seq<byte> :| |data| <= buf.Length;
      forall k | 0 <= k < |data| {
        buf[k] := data[k];
      }
      r := Ok(|data|);
    }

    /** Writing needs an open, writable descriptor. To a file it reports the full length even
        if only a prefix was written. */
    method Write(fd: nat, data: seq<byte>) returns (r: Result<nat, Error>, ghost e: Event)
      requires Valid()
      modifies fat
      ensures Enabled(old(State()), e) && State() == After(old(State()), e) && Valid()
      ensures fd == 0 ==> r == Err(BadFd)
      ensures fd > 2 && fd !in old(State()).files ==> r == Err(NoExistFd)
      ensures fd in old(State()).files && !old(State()).files[fd].mode.wr ==> r == Err(NoWritePerm)
      ensures r.Ok? && FatBacked(old(State()), fd) ==>
        r.value == |data| && e.Wrote? && e.fd == fd && |e.data| <= |data| && e.data == data[..|e.data|]
      ensures r.Err? || !FatBacked(old(State()), fd) ==> e == Failed({})
    {
      hide Owned, Written, Overwrite, MoveTo;
      ghost var before := State();
      e := Failed({});
      if fd == 0 {
        return Err(BadFd), e;
      }
      if fd <= 2 {
        var hostWritten: nat := *;
        return Ok(hostWritten), e;
      }
      var file := fdtab.GetFile(fd);
      if file.None? {
        return Err(NoExistFd), e;
      }
      if !file.value.mode.wr {
        return Err(NoWritePerm), e;
      }
      match file.value.src
      case FatFS(handle) =>
        OwnedIsLive(before, fd);
        var n := fat.Write(handle, data);
        ghost var k :| 0 <= k <= |data| && Written(before.table, before.disk, handle, data[..k], fat.table, fat.disk);
        r, e := Ok(n.value), Wrote(fd, data[..k]);
        WroteEvent(before, fd, handle, data[..k], State());
        EventKeepsOwned(before, e);
      case Net(_) =>
        var netFails: bool := *;
        r := if netFails then Err(NetErr) else Ok(|data|);
    }
  }

  ghost function PathOf(s: Sys, fd: nat): string
    requires FatBacked(s, fd)
  {
    s.table[s.files[fd].src.handle].value.path
  }

  ghost function CursorOf(s: Sys, fd: nat): nat
    requires FatBacked(s, fd)
  {
    s.table[s.files[fd].src.handle].value.cursor
  }

  /** The content of a file after a write through a descriptor of it. */
  lemma WroteContent(s: Sys, fd: nat, data: seq<byte>)
    requires Enabled(s, Wrote(fd, data))
    ensures var s' := After(s, Wrote(fd, data));
      && PathOf(s, fd) in s'.disk && s'.files == s.files
      && BytesAt(s'.disk[PathOf(s, fd)], CursorOf(s, fd), |data|) == data
      && CursorOf(s, fd) <= |s'.disk[PathOf(s, fd)]|
      && forall g :: FatBacked(s, g) ==> FatBacked(s', g) && PathOf(s', g) == PathOf(s, g)
  {
    OverwriteReadsBack(s.disk[PathOf(s, fd)], CursorOf(s, fd), data);
  }

  /** A write, a seek back and a read: through any descriptor of the same file, what was written
      is delivered. A write that the disk cut short counts with the part it wrote. */
  method WriteSeekRead(kernel: Kernel, fd: nat, other: nat, data: seq<byte>, buf: array<byte>)
      returns (ok: bool, ghost written: seq<byte>)
    requires kernel.Valid() && FatBacked(kernel.State(), fd) && FatBacked(kernel.State(), other)
    requires PathOf(kernel.State(), fd) == PathOf(kernel.State(), other)
    requires buf.Length == |data|
    modifies kernel.fat, buf
    ensures kernel.Valid() && written <= data
    ensures ok ==> buf[..|written|] == written
  {
    hide Owned, Overwrite, BytesAt, MoveTo;
    ghost var s := kernel.State();
    var cursor := kernel.fat.table[kernel.fdtab.inner[fd - 3].value.src.handle].value.cursor;
    written := [];
    var n, e := kernel.Write(fd, data);
    if n.Err? {
      return false, written;
    }
    written := e.data;
    WroteContent(s, fd, written);
    ghost var s1 := kernel.State();
    var moved, e1 := kernel.Lseek(other, cursor);
    if moved.Err? {
      return false, written;
    }
    ghost var s2 := kernel.State();
    SoughtTo(s1, other, cursor, s2);
    var m, e2 := kernel.Read(other, buf);
    ok := m.Ok?;
    if ok {
      LongerRead(s1.disk[PathOf(s, fd)], cursor, |written|, |data|);
    }
  }

  lemma SoughtTo(s: Sys, fd: nat, cursor: nat, s': Sys)
    requires FatBacked(s, fd) && PathOf(s, fd) in s.disk && cursor <= |s.disk[PathOf(s, fd)]|
    requires Enabled(s, Moved(fd, cursor)) && s' == After(s, Moved(fd, cursor))
    ensures FatBacked(s', fd) && PathOf(s', fd) == PathOf(s, fd) && CursorOf(s', fd) == cursor && s'.disk == s.disk
  {
  }

  /** A longer read starts with what a shorter one delivers. */
  lemma LongerRead(content: seq<byte>, cursor: nat, m: nat, n: nat)
    requires m <= n && |BytesAt(content, cursor, m)| == m
    ensures m <= |BytesAt(content, cursor, n)| && BytesAt(content, cursor, n)[..m] == BytesAt(content, cursor, m)
  {
  }
}
