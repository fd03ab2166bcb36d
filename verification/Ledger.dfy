/** The sort's resource ledger: two counters under limits, the leases charged
    to them, and the disk charges of files that could not be deleted. Leases,
    owners and files are named by their position in the lists below; a lease
    that was dropped or handed over holds nothing. */
module Ledger {
  import opened Prelude

  const SLOTS: nat := 64
  const BUFFER_BYTES: nat := 65536

  datatype Lease = Lease(bytes: nat, memory: bool)

  datatype PendingCleanup = PendingCleanup(disk: nat, memory: nat)

  /** A scratch file: what it is charged, its write buffer and its owner. */
  datatype DiskFile = DiskFile(lease: nat, buffer: Option<nat>, owner: nat)

  // -------------------------------------------------------------------- totals

  function Sum(s: seq<nat>): nat {
    if s == [] then 0 else Sum(s[..|s| - 1]) + s[|s| - 1]
  }

  lemma SumAppend(s: seq<nat>, x: nat)
    ensures Sum(s + [x]) == Sum(s) + x
  {
    assert (s + [x])[..|s|] == s;
  }

  lemma {:induction false} SumUpdate(s: seq<nat>, i: nat, x: nat)
    requires i < |s|
    ensures Sum(s[i := x]) + s[i] == Sum(s) + x && s[i] <= Sum(s)
    decreases |s|
  {
    var n := |s| - 1;
    if i < n {
      SumUpdate(s[..n], i, x);
      assert s[i := x][..n] == s[..n][i := x];
    } else {
      assert s[i := x][..n] == s[..n];
    }
  }

  lemma {:induction false} SumZero(s: seq<nat>)
    ensures Sum(s) == 0 <==> forall i :: 0 <= i < |s| ==> s[i] == 0
    decreases |s|
  {
    if s != [] {
      var n := |s| - 1;
      SumZero(s[..n]);
      if Sum(s) == 0 {
        forall i | 0 <= i < |s|
          ensures s[i] == 0
        {
          assert i < n ==> s[i] == s[..n][i];
        }
      }
    }
  }

  function Charge(lease: Lease, memory: bool): nat {
    if lease.memory == memory then lease.bytes else 0
  }

  function Charges(leases: seq<Lease>, memory: bool): seq<nat> {
    seq(|leases|, i requires 0 <= i < |leases| => Charge(leases[i], memory))
  }

  /** What the live leases of one kind hold. */
  function Held(leases: seq<Lease>, memory: bool): nat {
    Sum(Charges(leases, memory))
  }

  lemma HeldAppend(leases: seq<Lease>, lease: Lease, memory: bool)
    ensures Held(leases + [lease], memory) == Held(leases, memory) + Charge(lease, memory)
  {
    SumAppend(Charges(leases, memory), Charge(lease, memory));
    assert Charges(leases + [lease], memory) == Charges(leases, memory) + [Charge(lease, memory)];
  }

  lemma HeldUpdate(leases: seq<Lease>, i: nat, lease: Lease, memory: bool)
    requires i < |leases|
    ensures Held(leases[i := lease], memory) + Charge(leases[i], memory) == Held(leases, memory) + Charge(lease, memory)
    ensures Charge(leases[i], memory) <= Held(leases, memory)
  {
    SumUpdate(Charges(leases, memory), i, Charge(lease, memory));
    assert Charges(leases[i := lease], memory) == Charges(leases, memory)[i := Charge(lease, memory)];
  }

  function DiskOf(slot: Option<PendingCleanup>): nat {
    if slot.Some? then slot.value.disk else 0
  }

  function MemoryOf(slot: Option<PendingCleanup>): nat {
    if slot.Some? then slot.value.memory else 0
  }

  function Disks(slots: seq<Option<PendingCleanup>>): seq<nat> {
    seq(|slots|, i requires 0 <= i < |slots| => DiskOf(slots[i]))
  }

  function Memories(slots: seq<Option<PendingCleanup>>): seq<nat> {
    seq(|slots|, i requires 0 <= i < |slots| => MemoryOf(slots[i]))
  }

  lemma PendingUpdate(slots: seq<Option<PendingCleanup>>, i: nat, slot: Option<PendingCleanup>)
    requires i < |slots|
    ensures Sum(Disks(slots[i := slot])) + DiskOf(slots[i]) == Sum(Disks(slots)) + DiskOf(slot)
    ensures Sum(Memories(slots[i := slot])) + MemoryOf(slots[i]) == Sum(Memories(slots)) + MemoryOf(slot)
  {
    SumUpdate(Disks(slots), i, DiskOf(slot));
    SumUpdate(Memories(slots), i, MemoryOf(slot));
    assert Disks(slots[i := slot]) == Disks(slots)[i := DiskOf(slot)];
    assert Memories(slots[i := slot]) == Memories(slots)[i := MemoryOf(slot)];
  }

  predicate NonePending(slots: seq<Option<PendingCleanup>>) {
    forall i :: 0 <= i < |slots| ==> slots[i].None?
  }

  lemma NothingPending(slots: seq<Option<PendingCleanup>>)
    requires NonePending(slots)
    ensures Sum(Disks(slots)) == 0 && Sum(Memories(slots)) == 0
  {
    SumZero(Disks(slots));
    SumZero(Memories(slots));
  }

  // -------------------------------------------------------------------- ledger

  class SortResources {
    const memoryLimit: nat
    const diskLimit: nat
    var memory: nat
    var disk: nat
    var memoryPeak: nat
    var diskPeak: nat
    var pending: seq<Option<PendingCleanup>>
    var leases: seq<Lease>
    var retained: seq<nat>
    ghost var abandoned: nat

    /** Each counter is what is held, retained, pending and abandoned, and is
        within its limit. */
    ghost predicate Valid()
      reads this
    {
      && |pending| == SLOTS && memoryLimit <= U64_MAX && diskLimit <= U64_MAX
      && memory == Held(leases, true) + Sum(Memories(pending)) <= memoryLimit
      && disk == Held(leases, false) + Sum(retained) + Sum(Disks(pending)) + abandoned <= diskLimit
      && memory <= memoryPeak <= memoryLimit && disk <= diskPeak <= diskLimit
    }

    /** No deletion has failed, or every one that did was made good. */
    ghost predicate Clean()
      reads this`pending, this`retained, this`abandoned
    {
      NonePending(pending) && abandoned == 0 && forall o :: 0 <= o < |retained| ==> retained[o] == 0
    }

    ghost predicate FileOk(f: DiskFile)
      reads this`leases, this`retained
    {
      && f.lease < |leases| && !leases[f.lease].memory && f.owner < |retained|
      && (f.buffer.Some? ==> f.buffer.value < |leases| && leases[f.buffer.value].memory)
    }

    constructor (memoryLimit: nat, diskLimit: nat)
      requires memoryLimit <= U64_MAX && diskLimit <= U64_MAX
      ensures Valid() && Clean() && this.memoryLimit == memoryLimit && this.diskLimit == diskLimit
      ensures memory == disk == 0 && leases == [] && retained == []
    {
      this.memoryLimit, this.diskLimit := memoryLimit, diskLimit;
      memory, disk, memoryPeak, diskPeak := 0, 0, 0, 0;
      pending := seq(SLOTS, _ => None);
      leases, retained, abandoned := [], [], 0;
      new;
      NothingPending(pending);
    }

    /** Charges a lease unless its counter would pass the limit. */
    method Reserve(bytes: nat, kind: bool) returns (r: Result<nat>)
      requires Valid()
      modifies this`memory, this`disk, this`memoryPeak, this`diskPeak, this`leases
      ensures Valid()
      ensures r.Ok? <==> (if kind then old(memory) + bytes <= memoryLimit else old(disk) + bytes <= diskLimit)
      ensures r.Ok? ==> r.value == |old(leases)| && leases == old(leases) + [Lease(bytes, kind)]
      ensures r.Ok? && kind ==> memory == old(memory) + bytes && memoryPeak == Max(old(memoryPeak), memory)
      ensures r.Ok? && !kind ==> disk == old(disk) + bytes && diskPeak == Max(old(diskPeak), disk)
      ensures !(r.Ok? && kind) ==> memory == old(memory) && memoryPeak == old(memoryPeak)
      ensures !(r.Ok? && !kind) ==> disk == old(disk) && diskPeak == old(diskPeak)
      ensures r.Err? ==> leases == old(leases) && r.error == if kind then Allocation else Quota
    {
      hide Sum, Held;
      HeldAppend(leases, Lease(bytes, kind), true);
      HeldAppend(leases, Lease(bytes, kind), false);
      if kind {
        if memory + bytes > memoryLimit {
          return Err(Allocation);
        }
        memory := memory + bytes;
        memoryPeak := Max(memoryPeak, memory);
      } else {
        if disk + bytes > diskLimit {
          return Err(Quota);
        }
        disk := disk + bytes;
        diskPeak := Max(diskPeak, disk);
      }
      leases := leases + [Lease(bytes, kind)];
      r := Ok(|leases| - 1);
    }

    /** Moves what one lease holds to another of the same kind. */
    method HandOver(from: nat, to: nat)
      requires Valid() && from < |leases| && to < |leases| && from != to && leases[from].memory == leases[to].memory
      modifies this`leases
      ensures Valid()
      ensures var more := old(leases[to].(bytes := leases[to].bytes + leases[from].bytes));
              leases == old(leases)[to := more][from := old(leases[from]).(bytes := 0)]
    {
      hide Sum, Held;
      var more := leases[to].(bytes := leases[to].bytes + leases[from].bytes);
      var none := leases[from].(bytes := 0);
      HeldUpdate(leases, to, more, true);
      HeldUpdate(leases, to, more, false);
      leases := leases[to := more];
      HeldUpdate(leases, from, none, true);
      HeldUpdate(leases, from, none, false);
      leases := leases[from := none];
    }

    /** Adds to a lease, or leaves it as it was. */
    method Grow(lease: nat, count: nat) returns (r: Result<()>)
      requires Valid() && lease < |leases|
      modifies this`memory, this`disk, this`memoryPeak, this`diskPeak, this`leases
      ensures Valid() && |leases| >= |old(leases)|
      ensures forall i :: 0 <= i < |old(leases)| && i != lease ==> leases[i] == old(leases[i])
      ensures leases[lease] == old(leases[lease]).(bytes := old(leases[lease].bytes) + if r.Ok? then count else 0)
      ensures memory == old(memory) + (if r.Ok? && old(leases[lease].memory) then count else 0)
      ensures disk == old(disk) + (if r.Ok? && !old(leases[lease].memory) then count else 0)
      ensures r.Err? ==> leases == old(leases)
    {
      hide Sum, Held, Valid;
      var addition := Reserve(count, leases[lease].memory);
      if addition.Err? {
        return Err(addition.error);
      }
      HandOver(addition.value, lease);
      r := Ok(());
    }

    /** Gives back all a lease holds; its counter has at least that much. */
    method DropLease(lease: nat)
      requires Valid() && lease < |leases|
      modifies this`memory, this`disk, this`leases
      ensures Valid() && leases == old(leases)[lease := old(leases[lease]).(bytes := 0)]
      ensures memory == old(memory) - old(Charge(leases[lease], true))
      ensures disk == old(disk) - old(Charge(leases[lease], false))
    {
      hide Sum, Held;
      var none := leases[lease].(bytes := 0);
      HeldUpdate(leases, lease, none, true);
      HeldUpdate(leases, lease, none, false);
      if leases[lease].memory {
        memory := memory - leases[lease].bytes;
      } else {
        disk := disk - leases[lease].bytes;
      }
      leases := leases[lease := none];
    }

    // --------------------------------------------------------- files and owners

    method CreateOwner() returns (owner: nat)
      requires Valid()
      modifies this`retained
      ensures Valid() && owner == |old(retained)| && retained == old(retained) + [0]
    {
      SumAppend(retained, 0);
      owner := |retained|;
      retained := retained + [0];
    }

    /** A new file is charged its write buffer and, so far, no disk. */
    method CreateFile(owner: nat, calm: bool) returns (r: Result<DiskFile>)
      requires Valid() && owner < |retained|
      modifies this`memory, this`disk, this`memoryPeak, this`diskPeak, this`leases
      ensures Valid() && disk == old(disk)
      ensures r.Ok? ==> FileOk(r.value) && r.value.owner == owner && memory == old(memory) + BUFFER_BYTES
      ensures r.Err? ==> memory == old(memory)
      ensures calm && old(memory) + BUFFER_BYTES <= memoryLimit ==> r.Ok?
      ensures |leases| >= |old(leases)| && forall i :: 0 <= i < |old(leases)| ==> leases[i] == old(leases[i])
    {
      hide Sum, Held;
      var buffer := Reserve(BUFFER_BYTES, true);
      if buffer.Err? {
        return Err(buffer.error);
      }
      var failed := Disturbed(calm);
      if failed {
        DropLease(buffer.value);
        return Err(Io);
      }
      var lease := Reserve(0, false);
      r := Ok(DiskFile(lease.value, Some(buffer.value), owner));
    }

    /** Drops a file. If it cannot be deleted its charge stays, now with its
        owner. */
    method DropFile(f: DiskFile, deleted: bool)
      requires Valid() && FileOk(f)
      modifies this`memory, this`disk, this`leases, this`retained
      ensures Valid() && |leases| == |old(leases)| && leases[f.lease].bytes == 0
      ensures forall i :: 0 <= i < |leases| && i != f.lease && f.buffer != Some(i) ==> leases[i] == old(leases[i])
      ensures disk == old(disk) - if deleted then old(leases[f.lease].bytes) else 0
      ensures memory == old(memory) - if f.buffer.Some? then old(leases[f.buffer.value].bytes) else 0
      ensures retained == if deleted then old(retained)
                else old(retained)[f.owner := old(retained[f.owner]) + old(leases[f.lease].bytes)]
      ensures deleted && old(Clean()) ==> Clean()
    {
      hide Sum, Held, Valid;
      if !deleted {
        Retain(f);
      }
      DropLease(f.lease);
      if f.buffer.Some? {
        DropLease(f.buffer.value);
      }
    }

    method Retain(f: DiskFile)
      requires Valid() && FileOk(f)
      modifies this`leases, this`retained
      ensures Valid() && leases == old(leases)[f.lease := Lease(0, false)]
      ensures retained == old(retained)[f.owner := old(retained[f.owner]) + old(leases[f.lease].bytes)]
    {
      hide Sum, Held;
      var bytes := leases[f.lease].bytes;
      SumUpdate(retained, f.owner, retained[f.owner] + bytes);
      HeldUpdate(leases, f.lease, Lease(0, false), false);
      HeldUpdate(leases, f.lease, Lease(0, false), true);
      retained := retained[f.owner := retained[f.owner] + bytes];
      leases := leases[f.lease := Lease(0, false)];
    }

    /** Drops an owner and tries to delete its directory. Retained charges are
        given back, or wait in a slot for a retry, or are abandoned. */
    method DropOwner(owner: nat, deleted: bool, pathBytes: nat)
      requires Valid() && owner < |retained|
      modifies this
      ensures Valid() && retained == old(retained)[owner := 0] && |leases| >= |old(leases)|
      ensures deleted ==>
                && disk == old(disk) - old(retained[owner]) && memory == old(memory)
                && pending == old(pending) && abandoned == old(abandoned)
      ensures !deleted ==> disk == old(disk)
      ensures !deleted && old(retained[owner]) == 0 ==>
                pending == old(pending) && memory == old(memory) && abandoned == old(abandoned)
      ensures !deleted && old(retained[owner]) != 0 && old(CanWait(pathBytes)) ==>
                && memory == old(memory) + pathBytes && abandoned == old(abandoned)
                && exists slot :: 0 <= slot < SLOTS && old(pending)[slot].None?
                     && pending == old(pending)[slot := Some(PendingCleanup(old(retained[owner]), pathBytes))]
      ensures !deleted && old(retained[owner]) != 0 && !old(CanWait(pathBytes)) ==>
                pending == old(pending) && memory == old(memory) && abandoned == old(abandoned) + old(retained[owner])
      ensures deleted && old(Clean()) ==> Clean()
      ensures forall i :: 0 <= i < |old(leases)| ==> leases[i] == old(leases[i])
    {
      hide Sum, Held;
      var bytes := retained[owner];
      SumUpdate(retained, owner, 0);
      retained := retained[owner := 0];
      if deleted {
        disk := disk - bytes;
      } else {
        abandoned := abandoned + bytes;
        if bytes != 0 {
          var _ := DeferCleanup(bytes, pathBytes);
        }
      }
    }

    /** A slot is free, and the memory to remember a path can be had. */
    ghost predicate CanWait(pathBytes: nat)
      reads this`pending, this`memory
    {
      !(forall i :: 0 <= i < |pending| ==> pending[i].Some?) && memory + pathBytes <= memoryLimit
    }

    /** The first free slot, if any. */
    function FreeSlot(slots: seq<Option<PendingCleanup>>, from: nat): (r: Option<nat>)
      requires from <= |slots|
      ensures r.Some? ==> from <= r.value < |slots| && slots[r.value].None?
      ensures r.None? <==> forall i :: from <= i < |slots| ==> slots[i].Some?
      decreases |slots| - from
    {
      if from == |slots| then None
      else if slots[from].None? then Some(from)
      else FreeSlot(slots, from + 1)
    }

    /** Takes a charge that is bound to be abandoned into a slot, if one is
        free and the memory to remember it can be had. */
    method DeferCleanup(bytes: nat, pathBytes: nat) returns (slot: Option<nat>)
      requires Valid() && bytes <= abandoned
      modifies this`memory, this`disk, this`memoryPeak, this`diskPeak, this`leases, this`pending, this`abandoned
      ensures Valid() && disk == old(disk) && |leases| >= |old(leases)|
      ensures slot.Some? <==> old(CanWait(pathBytes))
      ensures slot.Some? ==>
                && slot.value < SLOTS && old(pending)[slot.value].None?
                && pending == old(pending)[slot.value := Some(PendingCleanup(bytes, pathBytes))]
                && memory == old(memory) + pathBytes && abandoned == old(abandoned) - bytes
      ensures slot.None? ==> pending == old(pending) && memory == old(memory) && abandoned == old(abandoned)
      ensures forall i :: 0 <= i < |old(leases)| ==> leases[i] == old(leases[i])
    {
      hide Sum, Held;
      slot := FreeSlot(pending, 0);
      if slot.None? {
        return;
      }
      var lease := Reserve(pathBytes, true);
      if lease.Err? {
        return None;
      }
      var none := Lease(0, true);
      HeldUpdate(leases, lease.value, none, true);
      HeldUpdate(leases, lease.value, none, false);
      PendingUpdate(pending, slot.value, Some(PendingCleanup(bytes, pathBytes)));
      leases := leases[lease.value := none];
      pending := pending[slot.value := Some(PendingCleanup(bytes, pathBytes))];
      abandoned := abandoned - bytes;
    }

    /** Retries every pending deletion; `deleted` says which ones succeed. */
    method RetryCleanup(deleted: seq<bool>)
      requires Valid() && |deleted| == SLOTS
      modifies this`memory, this`disk, this`pending
      ensures Valid()
      ensures forall i :: 0 <= i < SLOTS ==> pending[i] == if deleted[i] then None else old(pending)[i]
    {
      hide Sum, Held;
      for i := 0 to SLOTS
        invariant Valid()
        invariant forall k :: 0 <= k < i ==> pending[k] == if deleted[k] then None else old(pending)[k]
        invariant forall k :: i <= k < SLOTS ==> pending[k] == old(pending)[k]
      {
        if pending[i].Some? && deleted[i] {
          Release(i);
        }
      }
    }

    method Release(i: nat)
      requires Valid() && i < SLOTS && pending[i].Some?
      modifies this`memory, this`disk, this`pending
      ensures Valid() && pending == old(pending)[i := None]
      ensures memory == old(memory) - old(MemoryOf(pending[i])) && disk == old(disk) - old(DiskOf(pending[i]))
    {
      hide Sum, Held;
      PendingUpdate(pending, i, None);
      disk := disk - pending[i].value.disk;
      memory := memory - pending[i].value.memory;
      pending := pending[i := None];
    }

    /** Once every lease is given back and no deletion is waiting, only what was
        abandoned is still charged. */
    lemma OnlyAbandonedIsLost()
      requires Valid() && NonePending(pending)
      requires forall i :: 0 <= i < |leases| ==> leases[i].bytes == 0
      requires forall o :: 0 <= o < |retained| ==> retained[o] == 0
      ensures memory == 0 && disk == abandoned
    {
      SumZero(Charges(leases, true));
      SumZero(Charges(leases, false));
      SumZero(retained);
      NothingPending(pending);
    }

    /** With no failed deletion outstanding and every lease given back, the
        ledger is back to nothing. */
    lemma ReturnsToZero()
      requires Valid() && Clean() && forall i :: 0 <= i < |leases| ==> leases[i].bytes == 0
      ensures memory == 0 && disk == 0
    {
      hide Valid;
      OnlyAbandonedIsLost();
    }
  }
}
