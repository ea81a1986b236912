/**
 The aesdchar driver: write, read, llseek, the seek ioctl and module cleanup over a ring of the
 last ten commands and one command still being written.
 */
module CharDriver {
  import opened Basics
  import opened CircularBuffer
  import opened CommandStream

  const EINVAL := 22

  /** The kernel's allocator: every buffer ever handed out, which of them are in use, and every
      buffer ever given back, in order. */
  class Kernel {
    ghost var handedOut: set<array<byte>>
    ghost var live: set<array<byte>>
    ghost var freed: seq<array<byte>>

    /** A buffer handed out is either in use or has been given back once. */
    ghost predicate Valid()
      reads this
    {
      && handedOut == live + (set b | b in freed)
      && (forall b :: b in freed ==> b !in live)
      && Distinct(freed)
    }

    constructor ()
      ensures Valid() && handedOut == {} && live == {} && freed == []
    {
      handedOut, live, freed := {}, {}, [];
    }

    method Kmalloc(size: nat) returns (buffer: array<byte>)
      requires Valid()
      modifies this
      ensures Valid() && fresh(buffer) && buffer.Length == size
      ensures handedOut == old(handedOut) + {buffer} && live == old(live) + {buffer} && freed == old(freed)
    {
      buffer := new byte[size];
      handedOut, live := handedOut + {buffer}, live + {buffer};
    }

    /** A buffer can be given back only while it is in use. */
    method Kfree(buffer: array<byte>)
      requires Valid() && buffer in live
      modifies this
      ensures Valid() && handedOut == old(handedOut)
      ensures live == old(live) - {buffer} && freed == old(freed) + [buffer]
    {
      live, freed := live - {buffer}, freed + [buffer];
    }

    /** A larger buffer that starts with the bytes of the old one, which is given back. */
    method Krealloc(buffer: array?<byte>, size: nat) returns (larger: array<byte>)
      requires Valid()
      requires buffer != null ==> buffer in live && buffer.Length <= size
      modifies this
      ensures Valid() && fresh(larger) && larger.Length == size
      ensures buffer != null ==> larger[..buffer.Length] == buffer[..]
      ensures handedOut == old(handedOut) + {larger}
      ensures live == (if buffer == null then old(live) else old(live) - {buffer}) + {larger}
      ensures freed == old(freed) + Behind(buffer)
    {
      larger := Kmalloc(size);
      if buffer != null {
        forall i | 0 <= i < buffer.Length {
          larger[i] := buffer[i];
        }
        Kfree(buffer);
      }
    }
  }

  /** The buffer a pointer refers to, if any. */
  function Behind(buffer: array?<byte>): seq<array<byte>> {
    if buffer == null then [] else [buffer]
  }

  /** Fills a buffer from `at` to its end. */
  method Memcpy(buffer: array<byte>, at: nat, data: Bytes)
    requires at + |data| == buffer.Length
    modifies buffer
    ensures buffer[..] == old(buffer[..at]) + data
  {
    forall i | 0 <= i < |data| {
      buffer[at + i] := data[i];
    }
  }

  class File {
    var fPos: nat

    constructor ()
      ensures fPos == 0
    {
      fPos := 0;
    }
  }

  /** An entry whose buffer holds exactly these bytes. */
  ghost predicate Stores(e: Entry, text: Bytes)
    reads if e.buffptr == null then {} else {e.buffptr}
  {
    e.buffptr != null && e.buffptr.Length == e.size && e.buffptr[..] == text
  }

  /** One of the entries, or the working entry, refers to the buffer. */
  ghost predicate OwnedBy(recent: seq<Entry>, working: array?<byte>, buffer: array<byte>) {
    working == buffer || exists i :: 0 <= i < |recent| && recent[i].buffptr == buffer
  }

  /** Every buffer in use belongs to exactly one entry or is the temporary of one write. */
  ghost predicate EachOwnedOnce(recent: seq<Entry>, working: array?<byte>, live: set<array<byte>>,
                                temporaries: seq<array<byte>>) {
    && (forall i, j :: 0 <= i < j < |recent| ==> recent[i].buffptr != recent[j].buffptr)
    && (forall i :: 0 <= i < |recent| ==> recent[i].buffptr != working)
    && (forall buffer :: buffer in live ==> OwnedBy(recent, working, buffer) || buffer in temporaries)
    && Distinct(temporaries)
    && (forall buffer :: buffer in temporaries ==> buffer in live && !OwnedBy(recent, working, buffer))
  }

  /** A buffer other than an evicted one keeps its owner when an entry is added, and gets no other. */
  lemma StillOwned(recent: seq<Entry>, added: Entry, buffer: array<byte>)
    requires |recent| <= MAX_WRITE_OPERATIONS
    requires forall i, j :: 0 <= i < j < |recent| ==> recent[i].buffptr != recent[j].buffptr
    requires forall i :: 0 <= i < |recent| ==> recent[i].buffptr != added.buffptr
    ensures OwnedBy(Next(recent, added), null, buffer)
            <==> && OwnedBy(recent, added.buffptr, buffer)
                 && (|recent| == MAX_WRITE_OPERATIONS ==> recent[0].buffptr != buffer)
  {
    var next := Next(recent, added);
    var evicted := if |recent| < MAX_WRITE_OPERATIONS then 0 else 1;
    assert next[|next| - 1] == added;
    assert forall i :: evicted <= i < |recent| ==> next[i - evicted] == recent[i];
  }

  lemma CommitKeepsOwners(recent: seq<Entry>, added: Entry, live: set<array<byte>>, left: set<array<byte>>,
                          temporaries: seq<array<byte>>)
    requires |recent| <= MAX_WRITE_OPERATIONS && added.buffptr != null
    requires forall i :: 0 <= i < |recent| ==> recent[i].buffptr != null
    requires EachOwnedOnce(recent, added.buffptr, live, temporaries)
    requires forall buffer :: buffer in left
                              <==> && buffer in live
                                   && (|recent| == MAX_WRITE_OPERATIONS ==> recent[0].buffptr != buffer)
    ensures EachOwnedOnce(Next(recent, added), null, left, temporaries)
  {
    hide OwnedBy;
    forall buffer | buffer in live
      ensures OwnedBy(Next(recent, added), null, buffer)
              <==> && OwnedBy(recent, added.buffptr, buffer)
                   && (|recent| == MAX_WRITE_OPERATIONS ==> recent[0].buffptr != buffer)
    {
      StillOwned(recent, added, buffer);
    }
    if |recent| == MAX_WRITE_OPERATIONS {
      OldestIsOwned(recent, added.buffptr, temporaries);
    }
  }

  /** A committed entry and the later ones are not the one it displaces. */
  lemma OldestIsNotKept(recent: seq<Entry>, added: Entry, live: set<array<byte>>, temporaries: seq<array<byte>>)
    requires |recent| == MAX_WRITE_OPERATIONS && EachOwnedOnce(recent, added.buffptr, live, temporaries)
    ensures forall i :: 0 <= i < |Next(recent, added)| ==> Next(recent, added)[i].buffptr != recent[0].buffptr
  {
  }

  lemma OldestIsOwned(recent: seq<Entry>, working: array?<byte>, temporaries: seq<array<byte>>)
    requires recent != []
    requires forall buffer :: buffer in temporaries ==> !OwnedBy(recent, working, buffer)
    ensures forall buffer :: buffer in temporaries ==> buffer != recent[0].buffptr
  {
  }

  /** The first bytes of a part of the data go behind what comes before the part. */
  lemma OfferedPart(before: Bytes, data: Bytes, done: nat, end: nat, taken: nat)
    requires done + taken <= end <= |data|
    ensures before + data[..done] + data[done..end][..taken] == before + data[..done + taken]
  {
    assert data[..done] + data[done..end][..taken] == data[..done + taken];
  }

  lemma NextElements<T>(recent: seq<T>, x: T)
    requires |recent| <= MAX_WRITE_OPERATIONS
    ensures |recent| < MAX_WRITE_OPERATIONS ==> Next(recent, x) == recent + [x]
    ensures |recent| == MAX_WRITE_OPERATIONS ==> |Next(recent, x)| == |recent| && Next(recent, x)[|recent| - 1] == x
    ensures |recent| == MAX_WRITE_OPERATIONS ==> forall i :: 0 <= i < |recent| - 1 ==>
        Next(recent, x)[i] == recent[i + 1]
  {
  }

  class Device {
    const ring: Ring
    const kernel: Kernel
    var workingEntry: Entry

    /** Every byte ever accepted, in order. */
    ghost var stream: Bytes

    /** The buffers that the writes so far copied user data into, which nothing gives back. */
    ghost var temporaries: seq<array<byte>>

    /** The ring holds the last ten of the commands and the working entry the bytes after them. */
    ghost predicate Represents(lines: seq<Bytes>, tail: Bytes)
      reads this`workingEntry, ring, ring.entry, kernel, kernel.live
    {
      && ring.Valid()
      && |ring.history| == |lines|
      && (forall i :: 0 <= i < |ring.Recent()| ==>
            ring.Recent()[i].buffptr in kernel.live && Stores(ring.Recent()[i], LastTen(lines)[i]))
      && (if workingEntry.buffptr == null then
            workingEntry.size == 0 && tail == []
          else
            workingEntry.buffptr in kernel.live && Stores(workingEntry, tail))
    }

    ghost predicate OwnsEachOnce()
      reads this`workingEntry, this`temporaries, ring, kernel
    {
      && kernel.Valid()
      && EachOwnedOnce(ring.Recent(), workingEntry.buffptr, kernel.live, temporaries)
    }

    /** The state of the device is a function of the accepted bytes. */
    ghost predicate Valid()
      reads this, ring, ring.entry, kernel, kernel.live
    {
      Represents(Lines(stream), Tail(stream)) && OwnsEachOnce()
    }

    /** The text a reader sees. */
    ghost function Contents(): Bytes
      reads this
    {
      Joined(LastTen(Lines(stream)))
    }

    constructor ()
      ensures Valid() && stream == [] && temporaries == [] && kernel.handedOut == {}
      ensures fresh(ring) && fresh(ring.entry) && fresh(kernel)
    {
      ring := new Ring();
      kernel := new Kernel();
      workingEntry, stream, temporaries := EMPTY, [], [];
    }

    /** Copies the caller's bytes into a buffer of their own. */
    method CopyFromUser(data: Bytes, ghost lines: seq<Bytes>, ghost tail: Bytes) returns (kernBuf: array<byte>)
      requires Represents(lines, tail) && OwnsEachOnce()
      modifies this`temporaries, kernel
      ensures Represents(lines, tail) && OwnsEachOnce()
      ensures kernBuf[..] == data && temporaries == old(temporaries) + [kernBuf]
      ensures fresh(kernBuf) && kernel.handedOut == old(kernel.handedOut) + {kernBuf}
      ensures kernel.freed == old(kernel.freed)
    {
      hide LastTen, Ring.Valid;
      kernBuf := kernel.Kmalloc(|data|);
      Memcpy(kernBuf, 0, data);
      temporaries := temporaries + [kernBuf];
    }

    method AppendToWorking(data: Bytes, ghost lines: seq<Bytes>, ghost tail: Bytes)
      requires Represents(lines, tail) && OwnsEachOnce()
      modifies this`workingEntry, kernel
      ensures Represents(lines, tail + data) && OwnsEachOnce()
      ensures workingEntry.buffptr != null && fresh(workingEntry.buffptr)
      ensures kernel.handedOut == old(kernel.handedOut) + {workingEntry.buffptr}
      ensures kernel.freed == old(kernel.freed) + Behind(old(workingEntry.buffptr))
    {
      hide LastTen, Ring.Valid;
      var before := workingEntry;
      var tmp := kernel.Krealloc(workingEntry.buffptr, workingEntry.size + |data|);
      Memcpy(tmp, before.size, data);
      workingEntry := Entry(tmp, before.size + |data|);
    }

    /** The buffer of the oldest command if a further one displaces it. */
    ghost function ToEvict(): seq<array<byte>>
      reads ring
    {
      if |ring.Recent()| < MAX_WRITE_OPERATIONS then [] else Behind(ring.Recent()[0].buffptr)
    }

    method CommitWorking(ghost lines: seq<Bytes>, ghost line: Bytes)
      requires Represents(lines, line) && OwnsEachOnce()
      requires workingEntry.buffptr != null
      modifies this`workingEntry, ring, ring.entry, kernel
      ensures Represents(lines + [line], []) && OwnsEachOnce()
      ensures ring.history == old(ring.history) + [old(workingEntry)]
      ensures kernel.handedOut == old(kernel.handedOut)
      ensures kernel.freed == old(kernel.freed) + old(ToEvict())
    {
      hide LastTen, Ring.Valid, Next, Stores, EachOwnedOnce;
      ghost var recent := ring.Recent();
      LastTenNext(lines, line);
      NextElements(recent, workingEntry);
      NextElements(LastTen(lines), line);
      var overwritten := ring.AddEntry(workingEntry);
      if overwritten != null {
        OldestIsNotKept(recent, workingEntry, kernel.live, temporaries);
        kernel.Kfree(overwritten);
      }
      CommitKeepsOwners(recent, workingEntry, old(kernel.live), kernel.live, temporaries);
      workingEntry := EMPTY;
    }

    /** Besides what it does to the stream, a write gives back the buffer that the working entry
        outgrows and the one that a completed command evicts, and nothing else. */
    method Write(data: Bytes) returns (retval: nat)
      requires Valid()
      modifies this`workingEntry, this`stream, this`temporaries, ring, ring.entry, kernel
      ensures Valid()
      ensures retval == Accepted(data) && stream == old(stream) + data[..retval]
      ensures |temporaries| == |old(temporaries)| + 1 && old(temporaries) <= temporaries
      ensures old(kernel.handedOut) <= kernel.handedOut
      ensures kernel.freed == old(kernel.freed) + Behind(old(workingEntry.buffptr))
                              + if NEWLINE in data then old(ToEvict()) else []
    {
      hide Represents, OwnsEachOnce, Accepted, Lines, Tail, ToEvict;
      ghost var lines, tail := Lines(stream), Tail(stream);
      var kernBuf := CopyFromUser(data, lines, tail);
      retval := Accepted(kernBuf[..]);
      ghost var taken := data[..retval];
      AppendToWorking(kernBuf[..retval], lines, tail);
      if NEWLINE in data {
        AppendCommand(stream, taken);
        CommitWorking(lines, tail + taken);
      } else {
        AppendUnterminated(stream, taken);
      }
      stream := stream + taken;
    }

    /** Offers the unaccepted rest again until everything is written, whatever sizes the caller
        chooses to offer: the stream grows by exactly the data, so the state does not depend on them. */
    method WriteFully(data: Bytes, sizes: nat -> nat)
      requires Valid()
      requires forall i :: sizes(i) > 0
      modifies this`workingEntry, this`stream, this`temporaries, ring, ring.entry, kernel
      ensures Valid() && stream == old(stream) + data
      ensures old(temporaries) <= temporaries
      ensures old(kernel.handedOut) <= kernel.handedOut && old(kernel.freed) <= kernel.freed
    {
      hide Represents, OwnsEachOnce, Lines, Tail, Accepted, Behind, ToEvict;
      ghost var before := stream;
      var done, i := 0, 0;
      while done < |data|
        invariant 0 <= done <= |data|
        invariant Valid() && stream == before + data[..done]
        invariant old(temporaries) <= temporaries
        invariant old(kernel.handedOut) <= kernel.handedOut && old(kernel.freed) <= kernel.freed
      {
        var end := if done + sizes(i) < |data| then done + sizes(i) else |data|;
        var taken := Write(data[done..end]);
        OfferedPart(before, data, done, end, taken);
        done, i := done + taken, i + 1;
      }
      assert data[..done] == data;
    }

    /** The commands a reader can reach, oldest first. */
    ghost function Commands(): seq<Bytes>
      reads this`stream
    {
      LastTen(Lines(stream))
    }

    /** The sizes kept in the ring are the lengths of the commands. */
    lemma SizesAreLengths(n: nat)
      requires Valid() && n <= |ring.Recent()|
      ensures |ring.Recent()| == |Commands()|
      ensures Total(ring.Recent()[..n]) == |Joined(Commands()[..n])|
      ensures Total(ring.Recent()) == |Contents()|
    {
      hide LastTen, Lines, Tail;
      TotalIsLength(ring.Recent()[..n], Commands()[..n]);
      TotalIsLength(ring.Recent(), Commands());
    }

    /** Copies out bytes of the command at the file position, never beyond its end. */
    method Read(file: File, count: nat) returns (data: Bytes)
      requires Valid()
      modifies file
      ensures var left := LeftInCommand(Commands(), old(file.fPos));
              |data| == if count < left then count else left
      ensures file.fPos == old(file.fPos) + |data|
      ensures data != [] ==> file.fPos <= |Contents()| && data == Contents()[old(file.fPos)..file.fPos]
    {
      hide LastTen, Lines, Tail, Total, Joined, LeftInCommand;
      data := [];
      SizesAreLengths(0);
      var found, index, entryOffset;
      ghost var pos;
      found, index, entryOffset, pos := ring.FindEntryOffsetForFpos(file.fPos);
      if !found || ring.entry[index].buffptr == null {
        return;
      }
      SizesAreLengths(pos);
      LeftAt(Commands(), pos, entryOffset);
      var available := ring.entry[index].size - entryOffset;
      if available > count {
        available := count;
      }
      JoinedSlice(Commands(), pos, entryOffset, available);
      data := ring.entry[index].buffptr[entryOffset..entryOffset + available];
      file.fPos := file.fPos + available;
    }

    /** Reading on with any positive counts returns everything from the file position on, then ends. */
    method ReadToEnd(file: File, counts: nat -> nat) returns (data: Bytes)
      requires Valid()
      requires forall i :: counts(i) > 0
      modifies file
      ensures old(file.fPos) <= |Contents()| ==> data == Contents()[old(file.fPos)..] && file.fPos == |Contents()|
      ensures old(file.fPos) > |Contents()| ==> data == [] && file.fPos == old(file.fPos)
    {
      hide LastTen, Lines, Tail, Joined, LeftInCommand, Represents, OwnsEachOnce;
      data := [];
      ghost var start, all := file.fPos, Contents();
      var i := 0;
      var chunk := Read(file, counts(0));
      while chunk != []
        invariant Valid() && Contents() == all
        invariant start <= |all| ==> file.fPos <= |all| && data + chunk == all[start..file.fPos]
        invariant start > |all| ==> data + chunk == [] && file.fPos == start
        invariant chunk == [] ==> file.fPos >= |all|
        decreases |all| - file.fPos, |chunk|
      {
        data := data + chunk;
        i := i + 1;
        ghost var before := file.fPos;
        chunk := Read(file, counts(i));
        assert start <= |all| && chunk != [] ==> all[start..before] + all[before..file.fPos] == all[start..file.fPos];
        assert data + chunk == if chunk == [] then data else data + chunk;
      }
      assert data + chunk == data;
    }

    /** Moves the file position; the end is the number of bytes in all ten slots. */
    method LLSeek(file: File, offset: int, whence: Whence) returns (retval: int)
      requires Valid()
      modifies file
      ensures var newPos := match whence
                            case SeekSet => offset
                            case SeekCur => old(file.fPos) + offset
                            case SeekEnd => |Contents()| + offset
                            case OtherWhence => -1;
              if newPos < 0 then retval == -EINVAL && file.fPos == old(file.fPos)
              else retval == newPos && file.fPos == newPos
    {
      hide LastTen, Lines, Tail, Total, Joined;
      SizesAreLengths(0);
      var totalSize := ring.SumOfSizes();
      var newPos: int;
      match whence {
        case SeekSet => newPos := offset;
        case SeekCur => newPos := file.fPos + offset;
        case SeekEnd => newPos := totalSize + offset;
        case OtherWhence => return -EINVAL;
      }
      if newPos < 0 {
        return -EINVAL;
      }
      file.fPos := newPos;
      return newPos;
    }

    /** Seeking k bytes back from the end and reading on returns the last k bytes. */
    method ReadLast(file: File, k: nat, counts: nat -> nat) returns (data: Bytes)
      requires Valid() && k <= |Contents()|
      requires forall i :: counts(i) > 0
      modifies file
      ensures data == Contents()[|Contents()| - k..]
    {
      hide LastTen, Lines, Tail, Joined, Represents, OwnsEachOnce;
      var position := LLSeek(file, 0 - k, SeekEnd);
      data := ReadToEnd(file, counts);
    }

    /** The length of a command by its number, 0 for a slot without one. */
    ghost function CommandLength(n: nat): nat
      reads this`stream
    {
      if n < |Commands()| then |Commands()[n]| else 0
    }

    /** The offset at which a command starts; the end for a slot without one. */
    ghost function CommandStart(n: nat): nat
      reads this`stream
    {
      |Joined(Commands()[..if n < |Commands()| then n else |Commands()|])|
    }

    /** Seeks to an offset within a numbered command. The number is taken modulo ten and is not
        compared with the number of stored commands; only the offset can be rejected. */
    method UnlockedIoctl(file: File, isSeekTo: bool, writeCmd: nat, writeCmdOffset: nat) returns (ret: int)
      requires Valid()
      modifies file
      ensures !isSeekTo ==> ret == 0 && file.fPos == old(file.fPos)
      ensures isSeekTo && writeCmdOffset > CommandLength(Wrapped(writeCmd)) ==>
                ret == -EINVAL && file.fPos == old(file.fPos)
      ensures isSeekTo && writeCmdOffset <= CommandLength(Wrapped(writeCmd)) ==>
                ret == 0 && file.fPos == CommandStart(Wrapped(writeCmd)) + writeCmdOffset
    {
      hide LastTen, Lines, Tail, Total, Joined, Slot, Wrapped, Holds;
      if isSeekTo {
        ghost var n := Wrapped(writeCmd);
        var commandIndex := Wrapped(writeCmd + ring.outOffs);
        TargetSlot(writeCmd, ring.outOffs);
        SlotSize(n);
        if commandIndex > MAX_WRITE_OPERATIONS || writeCmdOffset > ring.entry[commandIndex].size {
          return -EINVAL;
        }
        var trav, byteCount := ring.outOffs, 0;
        ghost var i: nat := 0;
        StartOfFirst();
        FirstSlotIsFrom(ring.outOffs);
        while trav != commandIndex
          invariant i <= n && trav == Slot(ring.outOffs, i)
          invariant byteCount == CommandStart(i)
          decreases n - i
        {
          SlotSize(i);
          SlotFollows(ring.outOffs, i);
          DistinctSlots(ring.outOffs, i, n);
          byteCount := byteCount + ring.entry[trav].size;
          trav := Wrapped(trav + 1);
          i := i + 1;
        }
        DistinctSlots(ring.outOffs, i, n);
        file.fPos := byteCount + writeCmdOffset;
      }
      return 0;
    }

    /** The slot n places after the first holds command n, or nothing. */
    lemma SlotSize(n: nat)
      requires Valid() && n < MAX_WRITE_OPERATIONS
      ensures ring.entry[Slot(ring.outOffs, n)].size == CommandLength(n)
      ensures CommandStart(n + 1) == CommandStart(n) + CommandLength(n)
    {
      hide LastTen, Lines, Tail, Joined, Total;
      SizesAreLengths(0);
      var k := ring.EntryOfSlot(Slot(ring.outOffs, n));
      assert k == n;
      if n < |Commands()| {
        assert Commands()[..n + 1] == Commands()[..n] + [Commands()[n]];
        JoinedAppend(Commands()[..n], [Commands()[n]]);
        JoinedOne(Commands()[n]);
      }
    }

    lemma StartOfFirst()
      ensures CommandStart(0) == 0
    {
    }

    /** Seeking to a byte of a stored command and looking the position up leads to that command's
        slot and that byte. */
    method SeekAndFind(file: File, writeCmd: nat, writeCmdOffset: nat) returns (index: nat, rtn: nat)
      requires Valid()
      requires writeCmd < |Commands()| && writeCmdOffset < |Commands()[writeCmd]|
      modifies file
      ensures index == Slot(ring.outOffs, writeCmd) && rtn == writeCmdOffset
      ensures index < ring.entry.Length && Stores(ring.entry[index], Commands()[writeCmd])
    {
      hide LastTen, Lines, Tail, Total, Joined, Slot;
      assert Wrapped(writeCmd) == writeCmd;
      SizesAreLengths(writeCmd);
      var ret := UnlockedIoctl(file, true, writeCmd, writeCmdOffset);
      assert IsAt(ring.Recent(), writeCmd, writeCmdOffset, file.fPos);
      var found;
      ghost var pos;
      TotalNext(ring.Recent(), writeCmd);
      found, index, rtn, pos := ring.FindEntryOffsetForFpos(file.fPos);
      PlaceIsUnique(ring.Recent(), pos, rtn, writeCmd, writeCmdOffset, file.fPos);
    }

    /** The buffers of slots from i on, of the working entry and of past writes are in use, and nothing
        else is. */
    ghost predicate LeftToFree(i: nat)
      reads this`workingEntry, this`temporaries, ring, ring.entry, kernel
    {
      && kernel.Valid() && ring.entry.Length == MAX_WRITE_OPERATIONS
      && (forall j :: i <= j < MAX_WRITE_OPERATIONS && ring.entry[j].buffptr != null ==>
          ring.entry[j].buffptr in kernel.live)
      && (workingEntry.buffptr != null ==> workingEntry.buffptr in kernel.live)
      && (forall buffer :: buffer in temporaries ==> buffer in kernel.live)
      && (forall buffer :: buffer in kernel.live ==>
            || buffer == workingEntry.buffptr || buffer in temporaries
            || exists j :: i <= j < MAX_WRITE_OPERATIONS && ring.entry[j].buffptr == buffer)
    }

    /** No two slots, nor a slot and the working entry, refer to the same buffer, nor any of them to
        that of a past write. */
    ghost predicate SlotsDiffer()
      reads this`workingEntry, this`temporaries, ring, ring.entry
    {
      && ring.entry.Length == MAX_WRITE_OPERATIONS
      && (forall j, k :: 0 <= j < k < MAX_WRITE_OPERATIONS && ring.entry[j].buffptr != null ==>
            ring.entry[j].buffptr != ring.entry[k].buffptr)
      && (forall j :: 0 <= j < MAX_WRITE_OPERATIONS && ring.entry[j].buffptr != null ==>
            ring.entry[j].buffptr != workingEntry.buffptr)
      && (forall buffer :: buffer in temporaries ==> buffer != workingEntry.buffptr)
      && (forall j :: 0 <= j < MAX_WRITE_OPERATIONS ==> !IsTemporary(ring.entry[j].buffptr))
    }

    ghost predicate IsTemporary(buffer: array?<byte>)
      reads this`temporaries
    {
      exists i :: 0 <= i < |temporaries| && temporaries[i] == buffer
    }

    lemma SlotsPartitionBuffers()
      requires Valid()
      ensures SlotsDiffer() && LeftToFree(0)
    {
      hide LastTen, Lines, Tail, Slot, Holds;
      forall j, k | 0 <= j < k < MAX_WRITE_OPERATIONS && ring.entry[j].buffptr != null
        ensures ring.entry[j].buffptr != ring.entry[k].buffptr
      {
        var a := ring.EntryOfSlot(j);
        var b := ring.EntryOfSlot(k);
        assert a != b;
      }
      forall j | 0 <= j < MAX_WRITE_OPERATIONS && ring.entry[j].buffptr != null
        ensures ring.entry[j].buffptr != workingEntry.buffptr && ring.entry[j].buffptr in kernel.live
      {
        var a := ring.EntryOfSlot(j);
      }
      forall j | 0 <= j < MAX_WRITE_OPERATIONS
        ensures !IsTemporary(ring.entry[j].buffptr)
      {
        if ring.entry[j].buffptr != null {
          var a := ring.EntryOfSlot(j);
          assert OwnedBy(ring.Recent(), workingEntry.buffptr, ring.entry[j].buffptr);
        }
      }
      forall buffer | buffer in kernel.live && buffer != workingEntry.buffptr && buffer !in temporaries
        ensures exists j :: 0 <= j < MAX_WRITE_OPERATIONS && ring.entry[j].buffptr == buffer
      {
        assert OwnedBy(ring.Recent(), workingEntry.buffptr, buffer);
        var i :| 0 <= i < |ring.Recent()| && ring.Recent()[i].buffptr == buffer;
        HeldAt(ring.entry[..], ring.outOffs, ring.Recent(), i);
        assert ring.entry[Slot(ring.outOffs, i)].buffptr == buffer;
      }
    }

    /** Gives back the buffers of the ten slots and of the working entry, each once. The temporaries of
        past writes stay in use. */
    method Cleanup()
      requires Valid()
      modifies kernel
      ensures kernel.Valid() && kernel.handedOut == old(kernel.handedOut)
      ensures forall buffer :: buffer in kernel.live <==> buffer in temporaries
      ensures old(kernel.freed) <= kernel.freed
      ensures forall buffer :: buffer in kernel.freed[|old(kernel.freed)|..]
                               <==> buffer in old(kernel.live) && buffer !in temporaries
    {
      hide Represents, OwnsEachOnce;
      SlotsPartitionBuffers();
      for i := 0 to MAX_WRITE_OPERATIONS
        invariant SlotsDiffer() && LeftToFree(i)
        invariant kernel.handedOut == old(kernel.handedOut) && old(kernel.freed) <= kernel.freed
        invariant forall buffer :: buffer in old(kernel.live)
                                   <==> buffer in kernel.live || buffer in kernel.freed[|old(kernel.freed)|..]
      {
        var buffptr := ring.entry[i].buffptr;
        if buffptr != null {
          kernel.Kfree(buffptr);
        }
      }
      if workingEntry.buffptr != null {
        kernel.Kfree(workingEntry.buffptr);
      }
    }
  }

  /** From loading the module to unloading it: every buffer handed out has been given back exactly
      once, but for the temporaries, one for each write. */
  method LoadToUnload(writes: seq<Bytes>) returns (device: Device)
    ensures device.kernel.Valid() && Distinct(device.temporaries) && |device.temporaries| == |writes|
    ensures forall buffer :: buffer in device.kernel.handedOut
                             <==> buffer in device.kernel.freed || buffer in device.temporaries
    ensures forall buffer :: buffer in device.temporaries ==> buffer !in device.kernel.freed
  {
    device := new Device();
    for i := 0 to |writes|
      invariant fresh(device) && fresh(device.ring) && fresh(device.ring.entry) && fresh(device.kernel)
      invariant device.Valid() && |device.temporaries| == i
    {
      var accepted := device.Write(writes[i]);
    }
    device.Cleanup();
  }

  lemma HeldAt(slots: seq<Entry>, from: nat, entries: seq<Entry>, i: nat)
    requires Holds(slots, from, entries) && i < |entries|
    ensures slots[Slot(from, i)] == entries[i]
  {
  }

  datatype Whence = SeekSet | SeekCur | SeekEnd | OtherWhence

  lemma TargetSlot(n: nat, from: nat)
    requires from < MAX_WRITE_OPERATIONS
    ensures Wrapped(n + from) == Slot(from, Wrapped(n))
  {
  }

  lemma FirstSlotIsFrom(from: nat)
    requires from < MAX_WRITE_OPERATIONS
    ensures Slot(from, 0) == from
  {
  }

  lemma SlotFollows(from: nat, i: nat)
    requires from < MAX_WRITE_OPERATIONS && i < MAX_WRITE_OPERATIONS
    ensures i + 1 < MAX_WRITE_OPERATIONS ==> Wrapped(Slot(from, i) + 1) == Slot(from, i + 1)
  {
  }

  lemma DistinctSlots(from: nat, i: nat, j: nat)
    requires from < MAX_WRITE_OPERATIONS && i < MAX_WRITE_OPERATIONS && j < MAX_WRITE_OPERATIONS
    ensures Slot(from, i) == Slot(from, j) <==> i == j
  {
  }

  lemma {:induction false} TotalIsLength(entries: seq<Entry>, lines: seq<Bytes>)
    requires |entries| == |lines|
    requires forall i :: 0 <= i < |lines| ==> entries[i].size == |lines[i]|
    ensures Total(entries) == |Joined(lines)|
  {
    if entries != [] {
      TotalIsLength(entries[1..], lines[1..]);
    }
  }
}
