/**
 aesd-circular-buffer: a ring of the last ten write commands.
 */
module CircularBuffer {
  import opened Basics

  const MAX_WRITE_OPERATIONS := 10

  /** A buffer pointer and the number of bytes stored behind it. */
  datatype Entry = Entry(buffptr: array?<byte>, size: nat)

  const EMPTY := Entry(null, 0)

  function Total(entries: seq<Entry>): nat {
    if entries == [] then 0 else entries[0].size + Total(entries[1..])
  }

  lemma {:induction false} TotalAppend(a: seq<Entry>, b: seq<Entry>)
    ensures Total(a + b) == Total(a) + Total(b)
  {
    if a == [] {
      assert a + b == b;
    } else {
      assert (a + b)[1..] == a[1..] + b;
      TotalAppend(a[1..], b);
    }
  }

  lemma TotalNext(entries: seq<Entry>, i: nat)
    requires i < |entries|
    ensures Total(entries[..i + 1]) == Total(entries[..i]) + entries[i].size
    ensures Total(entries[..i + 1]) <= Total(entries)
  {
    assert entries[..i + 1] == entries[..i] + [entries[i]];
    TotalAppend(entries[..i], [entries[i]]);
    assert entries == entries[..i + 1] + entries[i + 1..];
    TotalAppend(entries[..i + 1], entries[i + 1..]);
  }

  /** The last ten elements, or all of them when there are fewer. */
  function LastTen<T>(s: seq<T>): (r: seq<T>)
    ensures |r| == if |s| < MAX_WRITE_OPERATIONS then |s| else MAX_WRITE_OPERATIONS
  {
    if |s| <= MAX_WRITE_OPERATIONS then s else s[|s| - MAX_WRITE_OPERATIONS..]
  }

  lemma LastTenIsSuffix<T>(s: seq<T>)
    ensures LastTen(s) == s[|s| - |LastTen(s)|..]
  {
  }

  lemma LastTenOldest<T>(s: seq<T>)
    requires |s| >= MAX_WRITE_OPERATIONS
    ensures LastTen(s)[0] == s[|s| - MAX_WRITE_OPERATIONS]
  {
  }

  /** At most ten elements with one more behind them, the oldest of ten giving way. */
  function Next<T>(recent: seq<T>, x: T): (r: seq<T>)
    requires |recent| <= MAX_WRITE_OPERATIONS
  {
    if |recent| < MAX_WRITE_OPERATIONS then recent + [x] else recent[1..] + [x]
  }

  lemma LastTenNext<T>(s: seq<T>, x: T)
    ensures LastTen(s + [x]) == Next(LastTen(s), x)
  {
  }

  /** Byte `rtn` of entry `pos` is byte `offset` of all entries put end to end. */
  predicate IsAt(entries: seq<Entry>, pos: nat, rtn: nat, offset: nat) {
    && pos < |entries|
    && rtn < entries[pos].size
    && Total(entries[..pos]) + rtn == offset
  }

  lemma {:induction false} TotalAscends(entries: seq<Entry>, i: nat, j: nat)
    requires i <= j <= |entries|
    ensures Total(entries[..i]) <= Total(entries[..j])
    decreases j
  {
    if i < j {
      TotalNext(entries, j - 1);
      TotalAscends(entries, i, j - 1);
    }
  }

  /** At most one entry and byte lies at an offset. */
  lemma PlaceIsUnique(entries: seq<Entry>, pos: nat, rtn: nat, pos': nat, rtn': nat, offset: nat)
    requires IsAt(entries, pos, rtn, offset) && IsAt(entries, pos', rtn', offset)
    ensures pos == pos' && rtn == rtn'
  {
    if pos < pos' {
      TotalNext(entries, pos);
      TotalAscends(entries, pos + 1, pos');
    } else if pos' < pos {
      TotalNext(entries, pos');
      TotalAscends(entries, pos' + 1, pos);
    }
  }

  /** An index taken modulo the number of slots. */
  function Wrapped(i: nat): (slot: nat)
    ensures slot < MAX_WRITE_OPERATIONS
  {
    i % MAX_WRITE_OPERATIONS
  }

  /** The slot i places after `from`, around the ring. */
  function Slot(from: nat, i: nat): (slot: nat)
    requires from < MAX_WRITE_OPERATIONS && i < MAX_WRITE_OPERATIONS
    ensures slot < MAX_WRITE_OPERATIONS
  {
    if from + i < MAX_WRITE_OPERATIONS then from + i else from + i - MAX_WRITE_OPERATIONS
  }

  lemma SlotIsWrapped(from: nat, i: nat)
    requires from < MAX_WRITE_OPERATIONS && i < MAX_WRITE_OPERATIONS
    ensures Wrapped(from + i) == Slot(from, i)
  {
  }

  /** Read from slot `from` on, around the ring, the slots hold the given entries. */
  ghost predicate Holds(slots: seq<Entry>, from: nat, entries: seq<Entry>) {
    && |slots| == MAX_WRITE_OPERATIONS && from < MAX_WRITE_OPERATIONS && |entries| <= MAX_WRITE_OPERATIONS
    && forall i :: 0 <= i < |entries| ==> slots[Slot(from, i)] == entries[i]
  }

  /** Overwriting the oldest of ten entries and moving on by one slot. */
  lemma HoldsAfterOverwrite(slots: seq<Entry>, from: nat, entries: seq<Entry>, added: Entry)
    requires Holds(slots, from, entries) && |entries| == MAX_WRITE_OPERATIONS
    ensures Holds(slots[from := added], Slot(from, 1), entries[1..] + [added])
  {
  }

  lemma HoldsAfterAppend(slots: seq<Entry>, entries: seq<Entry>, added: Entry)
    requires Holds(slots, 0, entries) && |entries| < MAX_WRITE_OPERATIONS
    ensures Holds(slots[|entries| := added], 0, entries + [added])
  {
  }

  class Ring {
    const entry: array<Entry>
    var inOffs: nat
    var outOffs: nat
    var full: bool

    /** Every entry ever added, in order. */
    ghost var history: seq<Entry>

    /** The entries the ring should hold, oldest first. */
    ghost function Recent(): seq<Entry>
      reads this
    {
      LastTen(history)
    }

    /** From outOffs on the slots hold the most recent entries in order; slots not yet used are
        null; and the ring starts at slot 0 until it is full. */
    ghost predicate Valid()
      reads this, entry
    {
      && entry.Length == MAX_WRITE_OPERATIONS
      && inOffs < MAX_WRITE_OPERATIONS
      && full == (|history| >= MAX_WRITE_OPERATIONS)
      && (full ==> outOffs == inOffs)
      && (!full ==> outOffs == 0 && inOffs == |history|)
      && Holds(entry[..], outOffs, Recent())
      && (forall i :: |history| <= i < MAX_WRITE_OPERATIONS ==> entry[i] == EMPTY)
    }

    /** Zeroes the whole structure. */
    constructor ()
      ensures Valid() && history == [] && fresh(entry)
    {
      entry := new Entry[MAX_WRITE_OPERATIONS](_ => EMPTY);
      inOffs, outOffs, full, history := 0, 0, false, [];
    }

    /** Adds an entry and returns the buffer it replaces: that of the oldest of ten, or null. */
    method AddEntry(added: Entry) returns (overwritten: array?<byte>)
      requires Valid()
      modifies this, entry
      ensures Valid() && history == old(history) + [added]
      ensures Recent() == Next(old(Recent()), added)
      ensures overwritten == if |old(Recent())| == MAX_WRITE_OPERATIONS then old(Recent())[0].buffptr else null
      ensures old(full) ==> full
    {
      hide Slot, Wrapped, Holds, Total, LastTen;
      ghost var slots, before := entry[..], Recent();
      LastTenNext(history, added);
      overwritten := null;
      if full {
        FirstSlot(slots, outOffs, before);
        HoldsAfterOverwrite(slots, outOffs, before, added);
        overwritten := entry[outOffs].buffptr;
      } else {
        HoldsAfterAppend(slots, before, added);
      }
      entry[inOffs] := added;
      assert entry[..] == slots[inOffs := added];
      StepOffset(inOffs);
      inOffs := Wrapped(inOffs + 1);
      if full {
        outOffs := Wrapped(outOffs + 1);
      }
      history := history + [added];
      full := inOffs == outOffs;
    }

    /** The ring's first slot holds its oldest entry. */
    lemma FirstSlot(slots: seq<Entry>, from: nat, entries: seq<Entry>)
      requires Holds(slots, from, entries) && entries != []
      ensures slots[from] == entries[0]
    {
    }

    lemma StepOffset(offs: nat)
      requires offs < MAX_WRITE_OPERATIONS
      ensures Wrapped(offs + 1) == Slot(offs, 1)
      ensures Slot(offs, 1) == if offs + 1 == MAX_WRITE_OPERATIONS then 0 else offs + 1
    {
    }

    /** The slot and byte at an offset into all stored commands put end to end. */
    method FindEntryOffsetForFpos(charOffset: nat) returns (found: bool, index: nat, rtn: nat, ghost pos: nat)
      requires Valid()
      ensures found <==> charOffset < Total(Recent())
      ensures found ==> IsAt(Recent(), pos, rtn, charOffset)
      ensures found ==> index == Slot(outOffs, pos) && entry[index] == Recent()[pos]
    {
      hide Slot, Wrapped;
      var bytesSoFar: nat := 0;
      var count := if full then MAX_WRITE_OPERATIONS else inOffs;
      found, index, rtn, pos := false, 0, 0, 0;
      for i := 0 to count
        invariant bytesSoFar == Total(Recent()[..i]) <= charOffset
      {
        SlotIsWrapped(outOffs, i);
        index := Wrapped(outOffs + i);
        assert entry[..][Slot(outOffs, i)] == Recent()[i];
        TotalNext(Recent(), i);
        if charOffset < bytesSoFar + entry[index].size {
          return true, index, charOffset - bytesSoFar, i;
        }
        bytesSoFar := bytesSoFar + entry[index].size;
      }
      assert Recent()[..count] == Recent();
    }

    /** The sizes in all ten slots, live or not, added up. */
    method SumOfSizes() returns (totalSize: nat)
      requires Valid()
      requires forall i :: 0 <= i < |Recent()| ==> Recent()[i].buffptr != null
      ensures totalSize == Total(Recent())
    {
      totalSize := 0;
      for i := 0 to MAX_WRITE_OPERATIONS
        invariant totalSize == Total(entry[..i])
      {
        TotalNext(entry[..], i);
        assert entry[..][..i + 1] == entry[..i + 1] && entry[..][..i] == entry[..i];
        NullMeansEmpty(i);
        if entry[i].buffptr != null {
          totalSize := totalSize + entry[i].size;
        }
      }
      assert entry[..MAX_WRITE_OPERATIONS] == entry[..];
      SlotsAreRecent();
    }

    /** Every slot holds a recent entry or, beyond those, is empty. */
    lemma EntryOfSlot(i: nat) returns (k: nat)
      requires Valid() && i < MAX_WRITE_OPERATIONS
      ensures k == if outOffs <= i then i - outOffs else i + MAX_WRITE_OPERATIONS - outOffs
      ensures k < |Recent()| ==> entry[i] == Recent()[k]
      ensures k >= |Recent()| ==> entry[i] == EMPTY
    {
      k := if outOffs <= i then i - outOffs else i + MAX_WRITE_OPERATIONS - outOffs;
      if k < |Recent()| {
        assert entry[..][Slot(outOffs, k)] == Recent()[k];
      }
    }

    /** A slot with a null buffer holds no bytes. */
    lemma NullMeansEmpty(i: nat)
      requires Valid() && i < MAX_WRITE_OPERATIONS
      requires forall k :: 0 <= k < |Recent()| ==> Recent()[k].buffptr != null
      ensures entry[i].buffptr == null ==> entry[i].size == 0
    {
      var k := EntryOfSlot(i);
    }

    /** All ten slots together hold as many bytes as the recent entries. */
    lemma SlotsAreRecent()
      requires Valid()
      ensures Total(entry[..]) == Total(Recent())
    {
      hide Total, Holds, LastTen, Slot;
      if full {
        RotatedTotal(entry[..], outOffs, Recent());
      } else {
        PrefixTotal(entry[..], Recent());
      }
    }
  }

  /** Adding entries one by one to a zeroed ring: it ends up with the last ten in order, and each
      addition beyond the tenth hands back the buffer added ten additions before. */
  method AddAll(entries: seq<Entry>) returns (ring: Ring, handedBack: seq<array?<byte>>)
    ensures fresh(ring) && ring.Valid() && ring.Recent() == LastTen(entries)
    ensures |handedBack| == |entries|
    ensures forall i :: 0 <= i < |entries| ==>
              handedBack[i] == if i < MAX_WRITE_OPERATIONS then null else entries[i - MAX_WRITE_OPERATIONS].buffptr
  {
    hide LastTen, Next, Ring.Valid;
    ring := new Ring();
    handedBack := [];
    for i := 0 to |entries|
      invariant fresh(ring) && fresh(ring.entry) && ring.Valid() && ring.history == entries[..i]
      invariant |handedBack| == i
      invariant forall k :: 0 <= k < i ==>
                  handedBack[k] == if k < MAX_WRITE_OPERATIONS then null else entries[k - MAX_WRITE_OPERATIONS].buffptr
    {
      if i >= MAX_WRITE_OPERATIONS {
        LastTenOldest(ring.history);
      }
      var overwritten := ring.AddEntry(entries[i]);
      handedBack := handedBack + [overwritten];
    }
    assert entries[..|entries|] == entries;
  }

  lemma RotatedTotal(slots: seq<Entry>, from: nat, entries: seq<Entry>)
    requires Holds(slots, from, entries) && |entries| == MAX_WRITE_OPERATIONS
    ensures Total(slots) == Total(entries)
  {
    hide Total;
    forall i | 0 <= i < MAX_WRITE_OPERATIONS
      ensures entries[i] == (slots[from..] + slots[..from])[i]
    {
      assert slots[Slot(from, i)] == entries[i];
    }
    assert entries == slots[from..] + slots[..from];
    TotalAppend(slots[from..], slots[..from]);
    TotalAppend(slots[..from], slots[from..]);
    assert slots == slots[..from] + slots[from..];
  }

  lemma PrefixTotal(slots: seq<Entry>, entries: seq<Entry>)
    requires Holds(slots, 0, entries)
    requires forall i :: |entries| <= i < |slots| ==> slots[i] == EMPTY
    ensures Total(slots) == Total(entries)
  {
    hide Total;
    var n := |entries|;
    forall i | 0 <= i < n
      ensures slots[i] == entries[i]
    {
      assert slots[Slot(0, i)] == entries[i];
    }
    assert slots[..n] == entries && slots == slots[..n] + slots[n..];
    TotalAppend(slots[..n], slots[n..]);
    EmptyTotal(slots[n..]);
  }

  lemma {:induction false} EmptyTotal(entries: seq<Entry>)
    requires forall i :: 0 <= i < |entries| ==> entries[i] == EMPTY
    ensures Total(entries) == 0
  {
    if entries != [] {
      EmptyTotal(entries[1..]);
    }
  }
}
