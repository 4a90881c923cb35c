/** The search for a free slot in the process table (kernel/src/proc/proctable.cpp). */
module ProcTable {

  datatype ProcState = Free | Current | Ready | Recv | Sleep | Susp | Wait | RecTimer

  /** The slot `k` steps after `last`, going round. */
  function Slot(last: nat, k: nat, size: nat): nat
    requires last < size && k <= size
  {
    if last + k < size then last + k else last + k - size
  }

  /** One step of the search. */
  lemma NextSlot(last: nat, k: nat, size: nat)
    requires last < size && k < size
    ensures (Slot(last, k, size) + 1) % size == Slot(last, k + 1, size)
  {
    var next := Slot(last, k, size) + 1;
    assert next == size || next < size;
  }

  class Table {
    const buf: array<ProcState>
    var last: int

    ghost predicate Valid()
      reads this
    {
      buf.Length > 0 && 0 <= last < buf.Length
    }

    /** Lines 4-8: every slot free. */
    constructor (nproc: nat)
      requires nproc > 0
      ensures Valid() && fresh(buf) && buf.Length == nproc && last == 0
      ensures forall i :: 0 <= i < nproc ==> buf[i] == Free
    {
      buf := new ProcState[nproc](_ => Free);
      last := 0;
    }

    /**
     Lines 10-22: the first free slot from `last` on to the end, or else the first one from the
     start, or -1 when there is none.
     */
    method NewPid() returns (pid: int)
      requires Valid()
      ensures pid == -1 <==> forall i :: 0 <= i < buf.Length ==> buf[i] != Free
      ensures pid != -1 ==> 0 <= pid < buf.Length && buf[pid] == Free
      ensures pid >= last ==> forall i :: last <= i < pid ==> buf[i] != Free
      ensures 0 <= pid < last ==>
                (forall i :: last <= i < buf.Length ==> buf[i] != Free) && forall i :: 0 <= i < pid ==> buf[i] != Free
      ensures pid != -1 ==>
                exists k :: 0 <= k < buf.Length && pid == Slot(last, k, buf.Length) &&
                  forall j :: 0 <= j < k ==> buf[Slot(last, j, buf.Length)] != Free
    {
      pid := last;
      for i := 0 to buf.Length
        invariant pid == Slot(last, i, buf.Length)
        invariant forall j :: 0 <= j < i ==> buf[Slot(last, j, buf.Length)] != Free
      {
        if buf[pid] == Free {
          PassedSlots(buf[..], last, i);
          return;
        }
        NextSlot(last, i, buf.Length);
        pid := (pid + 1) % buf.Length;
      }
      PassedSlots(buf[..], last, buf.Length);
      return -1;
    }
  }

  /** The slots passed after `k` steps: those from `last` up, and once at the end those from 0 up. */
  lemma PassedSlots(slots: seq<ProcState>, last: nat, k: nat)
    requires last < |slots| && k <= |slots|
    requires forall j :: 0 <= j < k ==> slots[Slot(last, j, |slots|)] != Free
    ensures forall i :: last <= i < |slots| && i < last + k ==> slots[i] != Free
    ensures forall i :: 0 <= i < last + k - |slots| ==> slots[i] != Free
  {
    forall i | last <= i < |slots| && i < last + k
      ensures slots[i] != Free
    {
      assert Slot(last, i - last, |slots|) == i;
    }
    forall i | 0 <= i < last + k - |slots|
      ensures slots[i] != Free
    {
      assert Slot(last, i + |slots| - last, |slots|) == i;
    }
  }

  /** Going round from any slot meets every slot exactly once. */
  lemma SlotsCoverTable(last: nat, size: nat, i: nat)
    requires last < size && i < size
    ensures exists k :: 0 <= k < size && Slot(last, k, size) == i
    ensures forall j, k :: 0 <= j < k < size ==> Slot(last, j, size) != Slot(last, k, size)
  {
    var k := if i >= last then i - last else i + size - last;
    assert Slot(last, k, size) == i;
  }
}
