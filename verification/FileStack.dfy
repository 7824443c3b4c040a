/** The descriptor layer over the FAT handle table and the socket set: which handle each
    descriptor owns, over every run of the system calls. */
module FileStack {
  import opened Bytes
  import opened Options
  import opened FdTab
  import opened Fatfs

  /** The whole state: descriptors, open FAT files, disk, and allocated sockets. A socket is
      not freed when its descriptor is closed. */
  datatype Sys = Sys(files: map<nat, File>, table: Table, disk: Disk, sockets: set<nat>)

  /** What a system call did to the state. Calls that fail leave it as it was, except that a
      failing network call may leave a socket allocated. */
  datatype Event =
    | Opened(path: string, create: bool, mode: OpenMode, fd: nat)
    | Closed(fd: nat)
    | Connected(fd: nat, sock: nat)
    | Bound(fd: nat, sock: nat)
    | Accepted(listen: nat, fd: nat, sock: nat)
    | Moved(fd: nat, cursor: nat)
    | Wrote(fd: nat, data: seq<byte>)
    | Failed(leaked: set<nat>)

  predicate FatBacked(s: Sys, fd: nat) {
    fd in s.files && s.files[fd].src.FatFS? && Live(s.table, s.files[fd].src.handle)
  }

  ghost predicate Enabled(s: Sys, e: Event) {
    match e
    case Opened(path, create, _, fd) => LowestFree(s.files, fd) && (create || path in s.disk)
    case Closed(fd) => fd in s.files && (s.files[fd].src.FatFS? ==> FatBacked(s, fd))
    case Connected(fd, sock) => LowestFree(s.files, fd) && sock !in s.sockets
    case Bound(fd, sock) => LowestFree(s.files, fd) && sock !in s.sockets
    case Accepted(listen, fd, sock) =>
      listen in s.files && s.files[listen].src.Net? && LowestFree(s.files, fd) && sock !in s.sockets
    case Moved(fd, cursor) =>
      && FatBacked(s, fd)
      && var path := s.table[s.files[fd].src.handle].value.path;
         path in s.disk && cursor <= |s.disk[path]|
    case Wrote(fd, data) =>
      && FatBacked(s, fd)
      && var file := s.table[s.files[fd].src.handle].value;
         file.path in s.disk && file.cursor <= |s.disk[file.path]|
    case Failed(leaked) => leaked !! s.sockets
  }

  ghost function After(s: Sys, e: Event): Sys
    requires Enabled(s, e)
  {
    match e
    case Opened(path, _, mode, fd) =>
      s.(files := s.files[fd := File(mode, FatFS(|s.table|))],
         table := s.table + [Some(OpenFile(path, 0))],
         disk := if path in s.disk then s.disk else s.disk[path := []])
    case Closed(fd) =>
      s.(files := s.files - {fd},
         table := if s.files[fd].src.FatFS? then s.table[s.files[fd].src.handle := None] else s.table)
    case Connected(fd, sock) => s.(files := s.files[fd := File(RDWR, Net(sock))], sockets := s.sockets + {sock})
    case Bound(fd, sock) => s.(files := s.files[fd := File(RD, Net(sock))], sockets := s.sockets + {sock})
    case Accepted(listen, fd, sock) =>
      // The listening descriptor goes on with the new socket; the new descriptor gets the old one.
      var old_ := s.files[listen];
      s.(files := s.files[listen := old_.(src := Net(sock))][fd := File(RDWR, old_.src)], sockets := s.sockets + {sock})
    case Moved(fd, cursor) => s.(table := MoveTo(s.table, s.files[fd].src.handle, cursor))
    case Wrote(fd, data) =>
      var h := s.files[fd].src.handle;
      var file := s.table[h].value;
      s.(table := MoveTo(s.table, h, file.cursor + |data|),
         disk := s.disk[file.path := Overwrite(s.disk[file.path], file.cursor, data)])
    case Failed(leaked) => s.(sockets := s.sockets + leaked)
  }

  // ---------- ownership ----------

  /** Every descriptor owns a live handle, no two own the same one, and every live FAT handle
      is owned. */
  ghost predicate Owned(s: Sys) {
    && (forall fd :: fd in s.files ==> 3 <= fd)
    && (forall fd :: fd in s.files ==> HandleLive(s, s.files[fd].src))
    && (forall a, b :: a in s.files && b in s.files && a != b ==> s.files[a].src != s.files[b].src)
    && (forall h: nat :: Live(s.table, h) ==> exists fd :: fd in s.files && s.files[fd].src == FatFS(h))
  }

  predicate HandleLive(s: Sys, src: DataSource) {
    match src
    case FatFS(h) => Live(s.table, h)
    case Net(sock) => sock in s.sockets
  }

  lemma OwnedIsLive(s: Sys, fd: nat)
    requires Owned(s) && fd in s.files
    ensures HandleLive(s, s.files[fd].src)
  {
  }

  /** Ownership depends only on which descriptors and handles there are. */
  lemma SameHandles(s: Sys, s': Sys)
    requires Owned(s) && s'.files == s.files && s.sockets <= s'.sockets
    requires |s'.table| == |s.table| && forall h: nat :: Live(s'.table, h) <==> Live(s.table, h)
    ensures Owned(s')
  {
    forall fd | fd in s'.files
      ensures HandleLive(s', s'.files[fd].src)
    {
      assert HandleLive(s, s.files[fd].src);
    }
  }

  lemma OpenedKeepsOwned(s: Sys, e: Event)
    requires Owned(s) && e.Opened? && Enabled(s, e)
    ensures Owned(After(s, e))
  {
    var s' := After(s, e);
    forall h: nat | Live(s'.table, h)
      ensures exists fd :: fd in s'.files && s'.files[fd].src == FatFS(h)
    {
      if h == |s.table| {
        assert s'.files[e.fd].src == FatFS(h);
      } else {
        assert Live(s.table, h);
        var fd :| fd in s.files && s.files[fd].src == FatFS(h);
        assert fd in s'.files && s'.files[fd].src == FatFS(h);
      }
    }
  }

  lemma ClosedKeepsOwned(s: Sys, e: Event)
    requires Owned(s) && e.Closed? && Enabled(s, e)
    ensures Owned(After(s, e))
  {
    var s' := After(s, e);
    forall h: nat | Live(s'.table, h)
      ensures exists fd :: fd in s'.files && s'.files[fd].src == FatFS(h)
    {
      assert Live(s.table, h);
      var fd :| fd in s.files && s.files[fd].src == FatFS(h);
      assert fd in s'.files;
    }
  }

  /** A network call adds a socket and changes no FAT handle. */
  lemma NetworkKeepsOwned(s: Sys, e: Event)
    requires Owned(s) && (e.Connected? || e.Bound? || e.Accepted?) && Enabled(s, e)
    ensures Owned(After(s, e))
  {
    var s' := After(s, e);
    forall h: nat | Live(s'.table, h)
      ensures exists fd :: fd in s'.files && s'.files[fd].src == FatFS(h)
    {
      assert Live(s.table, h);
      var fd :| fd in s.files && s.files[fd].src == FatFS(h);
      assert fd in s'.files && s'.files[fd].src == FatFS(h);
    }
  }

  lemma EventKeepsOwned(s: Sys, e: Event)
    requires Owned(s) && Enabled(s, e)
    ensures Owned(After(s, e))
  {
    hide Owned;
    if e.Opened? {
      OpenedKeepsOwned(s, e);
    } else if e.Closed? {
      ClosedKeepsOwned(s, e);
    } else if e.Connected? || e.Bound? || e.Accepted? {
      NetworkKeepsOwned(s, e);
    } else {
      SameHandles(s, After(s, e));
    }
  }

  // ---------- runs ----------

  ghost predicate IsRun(s: Sys, events: seq<Event>)
    decreases events
  {
    events == [] || (Enabled(s, events[0]) && IsRun(After(s, events[0]), events[1..]))
  }

  ghost function Final(s: Sys, events: seq<Event>): Sys
    requires IsRun(s, events)
    decreases events
  {
    if events == [] then s else Final(After(s, events[0]), events[1..])
  }

  function Boot(disk: Disk): Sys {
    Sys(map[], [], disk, {})
  }

  lemma {:induction false} RunKeepsOwned(s: Sys, events: seq<Event>)
    requires Owned(s) && IsRun(s, events)
    ensures Owned(Final(s, events))
    decreases events
  {
    if events != [] {
      EventKeepsOwned(s, events[0]);
      RunKeepsOwned(After(s, events[0]), events[1..]);
    }
  }

  ghost predicate OnlyOwner(s: Sys, fd: nat, h: nat) {
    && fd in s.files && s.files[fd].src == FatFS(h)
    && forall other :: other in s.files && s.files[other].src == FatFS(h) ==> other == fd
  }

  /** Over every run from boot: distinct descriptors own distinct live handles, and every live
      FAT handle is owned by exactly one descriptor. */
  lemma OwnershipOverRuns(disk: Disk, events: seq<Event>)
    requires IsRun(Boot(disk), events)
    ensures var s := Final(Boot(disk), events);
      Owned(s) && forall h: nat :: Live(s.table, h) ==> exists fd :: OnlyOwner(s, fd, h)
  {
    RunKeepsOwned(Boot(disk), events);
    var s := Final(Boot(disk), events);
    forall h: nat | Live(s.table, h)
      ensures exists fd :: OnlyOwner(s, fd, h)
    {
      var fd :| fd in s.files && s.files[fd].src == FatFS(h);
      assert OnlyOwner(s, fd, h);
    }
  }

  /** A FAT handle number is never used again: once closed it stays closed, and a new file
      gets a number that no earlier file had. */
  lemma {:induction false} HandleNeverReused(s: Sys, events: seq<Event>, h: nat)
    requires IsRun(s, events)
    requires h < |s.table| && !Live(s.table, h)
    ensures |s.table| <= |Final(s, events).table|
    ensures !Live(Final(s, events).table, h)
    decreases events
  {
    if events != [] {
      HandleNeverReused(After(s, events[0]), events[1..], h);
    }
  }

  /** The descriptor an event hands out, if any. */
  function HandsOut(e: Event): Option<nat> {
    match e
    case Opened(_, _, _, fd) => Some(fd)
    case Connected(fd, _) => Some(fd)
    case Bound(fd, _) => Some(fd)
    case Accepted(_, fd, _) => Some(fd)
    case _ => None
  }

  /** A descriptor that is not in use stays out of use until a call hands it out again. */
  lemma {:induction false} AbsentUntilHandedOut(s: Sys, events: seq<Event>, fd: nat)
    requires IsRun(s, events) && fd !in s.files
    requires forall k :: 0 <= k < |events| ==> HandsOut(events[k]) != Some(fd)
    ensures fd !in Final(s, events).files
    decreases events
  {
    if events != [] {
      AbsentUntilHandedOut(After(s, events[0]), events[1..], fd);
    }
  }

  /** A descriptor keeps its file until it is closed; only `accept` on it changes the socket
      behind it, and then to one that no descriptor owned. */
  lemma EventKeepsOthers(s: Sys, e: Event, fd: nat)
    requires Owned(s) && Enabled(s, e) && fd in s.files && e != Closed(fd)
    ensures fd in After(s, e).files && After(s, e).files[fd].mode == s.files[fd].mode
    ensures !(e.Accepted? && e.listen == fd) ==> After(s, e).files[fd] == s.files[fd]
    ensures e.Accepted? && e.listen == fd ==>
      && After(s, e).files[fd].src == Net(e.sock)
      && After(s, e).files[e.fd].src == s.files[fd].src
      && forall other :: other in s.files ==> s.files[other].src != Net(e.sock)
  {
  }

  lemma FreshSocket(sockets: set<nat>)
    ensures exists sock: nat :: sock !in sockets
  {
    var bound := BoundOf(sockets);
    assert bound !in sockets;
  }

  lemma {:induction false} BoundOf(sockets: set<nat>) returns (bound: nat)
    ensures forall s :: s in sockets ==> s < bound
  {
    if sockets == {} {
      bound := 0;
    } else {
      var x :| x in sockets;
      var rest := BoundOf(sockets - {x});
      bound := if x < rest then rest else x + 1;
      forall s | s in sockets
        ensures s < bound
      {
        assert s == x || s in sockets - {x};
      }
    }
  }
}
