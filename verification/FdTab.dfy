/** The file descriptor table: a vector of optional files whose index 0 is descriptor 3. */
module FdTab {
  import opened Options

  datatype DataSource = FatFS(handle: nat) | Net(sock: nat)

  datatype OpenMode = OpenMode(rd: bool, wr: bool)

  const RD := OpenMode(true, false)
  const RDWR := OpenMode(true, true)

  datatype File = File(mode: OpenMode, src: DataSource)

  /** The finite map from descriptors to files that the vector stands for. */
  ghost function FilesOf(inner: seq<Option<File>>): map<nat, File> {
    map fd: nat | 3 <= fd < |inner| + 3 && InUse(inner, fd) :: inner[fd - 3].value
  }

  predicate InUse(inner: seq<Option<File>>, fd: nat)
    requires 3 <= fd < |inner| + 3
  {
    inner[fd - 3].Some?
  }

  /** `fd` is the lowest descriptor from 3 on that is not in use. */
  ghost predicate LowestFree(files: map<nat, File>, fd: nat) {
    3 <= fd && fd !in files && forall k :: 3 <= k < fd ==> k in files
  }

  class FdTable {
    var inner: seq<Option<File>>

    ghost function Files(): map<nat, File>
      reads this
    {
      FilesOf(inner)
    }

    constructor ()
      ensures Files() == map[]
    {
      inner := [];
    }

    /** Reuse the first free entry, or append one. */
    method AddFile(file: File) returns (fd: nat)
      modifies this
      ensures LowestFree(old(Files()), fd)
      ensures Files() == old(Files())[fd := file]
    {
      for idx := 0 to |inner|
        invariant inner == old(inner)
        invariant forall k :: 0 <= k < idx ==> inner[k].Some?
      {
        if inner[idx].None? {
          inner := inner[idx := Some(file)];
          return idx + 3;
        }
      }
      inner := inner + [Some(file)];
      fd := |inner| + 2;
    }

    /** Below 3 the index wraps around to a number beyond the vector. */
    method RemoveFile(fd: nat) returns (removed: Option<File>)
      modifies this
      ensures removed == if fd in old(Files()) then Some(old(Files())[fd]) else None
      ensures Files() == old(Files()) - {fd}
    {
      if fd < 3 || fd - 3 >= |inner| {
        return None;
      }
      removed := inner[fd - 3];
      inner := inner[fd - 3 := None];
    }

    method GetFile(fd: nat) returns (file: Option<File>)
      ensures file == if fd in Files() then Some(Files()[fd]) else None
    {
      file := if 3 <= fd < |inner| + 3 then inner[fd - 3] else None;
    }

    /** What `accept` does to the entry of the listening socket. */
    method SetSource(fd: nat, src: DataSource)
      requires fd in Files()
      modifies this
      ensures Files() == old(Files())[fd := old(Files())[fd].(src := src)]
    {
      inner := inner[fd - 3 := Some(inner[fd - 3].value.(src := src))];
    }
  }
}
