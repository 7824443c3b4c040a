/** The FAT file service: an append-only table of open files over a disk of named byte
    sequences. The FAT library itself is represented by what its calls may do: a read may
    deliver fewer bytes than asked for, and any call may fail. */
module Fatfs {
  import opened Bytes
  import opened Options

  datatype FatError = BadInputFd | HostIoErr | Unknown

  /** An open file: which file on the disk, and the position of the next access. */
  datatype OpenFile = OpenFile(path: string, cursor: nat)

  type Table = seq<Option<OpenFile>>

  type Disk = map<string, seq<byte>>

  predicate Live(table: Table, h: nat) {
    h < |table| && table[h].Some?
  }

  /** Every open file is on the disk. */
  ghost predicate OnDisk(table: Table, disk: Disk) {
    forall h: nat :: Live(table, h) ==> table[h].value.path in disk
  }

  function MoveTo(table: Table, h: nat, cursor: nat): Table
    requires Live(table, h)
  {
    table[h := Some(table[h].value.(cursor := cursor))]
  }

  /** The bytes that a read of at most `n` bytes at `cursor` delivers when nothing fails. */
  function BytesAt(content: seq<byte>, cursor: nat, n: nat): (r: seq<byte>)
    ensures |r| <= n
    ensures forall k :: 0 <= k < |r| ==> cursor + k < |content| && r[k] == content[cursor + k]
    ensures |r| < n ==> cursor + |r| >= |content|
  {
    if cursor >= |content| then [] else content[cursor..Min(|content|, cursor + n)]
  }

  /** Bytes `data` written over `content` at `cursor`, extending it if needed. */
  function Overwrite(content: seq<byte>, cursor: nat, data: seq<byte>): seq<byte>
    requires cursor <= |content|
  {
    content[..cursor] + data + if cursor + |data| <= |content| then content[cursor + |data|..] else []
  }

  /** Byte by byte: the data from the cursor on, the old content elsewhere, and the file grows
      only if the data reaches beyond its end. */
  lemma OverwriteAt(content: seq<byte>, cursor: nat, data: seq<byte>)
    requires cursor <= |content|
    ensures var r := Overwrite(content, cursor, data);
      && |r| == (if cursor + |data| <= |content| then |content| else cursor + |data|)
      && (forall k :: cursor <= k < cursor + |data| ==> r[k] == data[k - cursor])
      && (forall k :: 0 <= k < |content| && !(cursor <= k < cursor + |data|) ==> r[k] == content[k])
  {
  }

  /** What was written at the cursor is read back there. */
  lemma OverwriteReadsBack(content: seq<byte>, cursor: nat, data: seq<byte>)
    requires cursor <= |content|
    ensures BytesAt(Overwrite(content, cursor, data), cursor, |data|) == data
  {
    OverwriteAt(content, cursor, data);
    hide Overwrite;
    var r := Overwrite(content, cursor, data);
    assert |BytesAt(r, cursor, |data|)| == |data|;
  }

  class FileService {
    var table: Table
    var disk: Disk

    ghost predicate Valid()
      reads this
    {
      && OnDisk(table, disk)
      && forall h: nat :: Live(table, h) ==> table[h].value.cursor <= |disk[table[h].value.path]|
    }

    constructor (image: Disk)
      ensures Valid() && table == [] && disk == image
    {
      table, disk := [], image;
    }

    /** The handle is the next index of the table; closed entries are not used again. */
    method Open(path: string, create: bool) returns (r: Result<nat, FatError>)
      requires Valid()
      modifies this
      ensures Valid()
      ensures r.Ok? ==> create || path in old(disk)
      ensures r.Ok? ==> r.value == |old(table)| && table == old(table) + [Some(OpenFile(path, 0))]
      ensures r.Ok? ==> disk == if path in old(disk) then old(disk) else old(disk)[path := []]
      ensures r.Err? ==> r.error == Unknown && table == old(table) && disk == old(disk)
    {
      var libraryFails: bool := *;
      if libraryFails || (!create && path !in disk) {
        return Err(Unknown);
      }
      if path !in disk {
        disk := disk[path := []];
      }
      table := table + [Some(OpenFile(path, 0))];
      r := Ok(|table| - 1);
    }

    method Close(h: nat) returns (r: Result<(), FatError>)
      requires Valid()
      modifies this`table
      ensures Valid()
      ensures r.Ok? <==> Live(old(table), h)
      ensures r.Ok? ==> table == old(table)[h := None]
      ensures r.Err? ==> r.error == BadInputFd && table == old(table)
    {
      if h < |table| && table[h].Some? {
        table := table[h := None];
        r := Ok(());
      } else {
        r := Err(BadInputFd);
      }
    }

    /** The library does not seek beyond the end of a file. */
    method Seek(h: nat, pos: nat) returns (r: Result<(), FatError>)
      requires Valid()
      modifies this`table
      ensures Valid()
      ensures r.Ok? ==> Live(old(table), h)
      ensures r.Ok? ==> table == MoveTo(old(table), h, Min(pos, |disk[old(table)[h].value.path]|))
      ensures r.Err? ==> table == old(table)
      ensures r == Err(BadInputFd) <==> !Live(old(table), h)
    {
      if !Live(table, h) {
        return Err(BadInputFd);
      }
      var libraryFails: bool := *;
      if libraryFails {
        return Err(HostIoErr);
      }
      table := MoveTo(table, h, Min(pos, |disk[table[h].value.path]|));
      r := Ok(());
    }

    /** One call of the library's read into `buf` from index `from` on: at least one byte
        unless the file or the buffer is exhausted; a negative result is a failure. */
    method ReadSome(h: nat, buf: array<byte>, from: nat) returns (n: int)
      requires Valid() && Live(table, h)
      requires from <= buf.Length
      modifies this`table, buf
      ensures Valid() && Live(table, h)
      ensures n < 0 ==> table == old(table)
      ensures n >= 0 ==>
        var file := old(table)[h].value;
        && n <= |BytesAt(disk[file.path], file.cursor, buf.Length - from)|
        && (n == 0 ==> BytesAt(disk[file.path], file.cursor, buf.Length - from) == [])
        && table == MoveTo(old(table), h, file.cursor + n)
        && (forall k :: from <= k < from + n ==> buf[k] == disk[file.path][file.cursor + k - from])
      ensures forall k :: 0 <= k < buf.Length && !(from <= k < from + n) ==> buf[k] == old(buf[k])
    {
      var libraryFails: bool := *;
      if libraryFails {
        return -1;
      }
      var file := table[h].value;
      var bytes := BytesAt(disk[file.path], file.cursor, buf.Length - from);
      n :| 0 <= n <= |bytes| && (n == 0 ==> bytes == []);
      forall k | from <= k < from + n {
        buf[k] := bytes[k - from];
      }
      table := MoveTo(table, h, file.cursor + n);
    }

    /** Fill the buffer or stop at the end of the file. */
    method Read(h: nat, buf: array<byte>) returns (r: Result<nat, FatError>)
      requires Valid()
      modifies this`table, buf
      ensures Valid()
      ensures r == Err(BadInputFd) <==> !Live(old(table), h)
      ensures !Live(old(table), h) ==> table == old(table) && buf[..] == old(buf[..])
      ensures Live(old(table), h) ==> Live(table, h) && table == MoveTo(old(table), h, table[h].value.cursor)
      ensures r.Ok? ==>
        var file := old(table)[h].value;
        var bytes := BytesAt(disk[file.path], file.cursor, buf.Length);
        && r.value == |bytes|
        && table[h].value.cursor == file.cursor + |bytes|
        && buf[..] == bytes + old(buf[..])[|bytes|..]
    {
      if !Live(table, h) {
        return Err(BadInputFd);
      }
      var readSize := 0;
      ghost var file, before := table[h].value, buf[..];
      ghost var content := disk[file.path];
      while readSize < buf.Length
        invariant Valid() && Live(table, h)
        invariant 0 <= readSize <= |BytesAt(content, file.cursor, buf.Length)|
        invariant table == MoveTo(old(table), h, file.cursor + readSize)
        invariant forall k :: 0 <= k < readSize ==> buf[k] == content[file.cursor + k]
        invariant forall k :: readSize <= k < buf.Length ==> buf[k] == before[k]
      {
        var n := ReadSome(h, buf, readSize);
        if n < 0 {
          return Err(HostIoErr);
        }
        if n == 0 {
          break;
        }
        readSize := readSize + n;
      }
      r := Ok(readSize);
    }

    /** The bytes are written as far as the library gets; the result is the full length in
        any case, because the failure is dropped. */
    method Write(h: nat, data: seq<byte>) returns (r: Result<nat, FatError>)
      requires Valid()
      modifies this
      ensures Valid()
      ensures r == if Live(old(table), h) then Ok(|data|) else Err(BadInputFd)
      ensures r.Err? ==> table == old(table) && disk == old(disk)
      ensures r.Ok? ==> exists n :: 0 <= n <= |data| && Written(old(table), old(disk), h, data[..n], table, disk)
    {
      if !Live(table, h) {
        return Err(BadInputFd);
      }
      var file := table[h].value;
      var n :| 0 <= n <= |data|;
      disk := disk[file.path := Overwrite(disk[file.path], file.cursor, data[..n])];
      table := MoveTo(table, h, file.cursor + n);
      r := Ok(|data|);
      assert Written(old(table), old(disk), h, data[..n], table, disk);
    }
  }

  ghost predicate Written(table: Table, disk: Disk, h: nat, data: seq<byte>, table': Table, disk': Disk) {
    && Live(table, h) && table[h].value.path in disk
    && table[h].value.cursor <= |disk[table[h].value.path]|
    && var file := table[h].value;
       && table' == MoveTo(table, h, file.cursor + |data|)
       && disk' == disk[file.path := Overwrite(disk[file.path], file.cursor, data)]
  }
}
