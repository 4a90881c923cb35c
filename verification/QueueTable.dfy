/** The queue table of kernel/src/proc/queuetable.cpp: several doubly linked queues in one array. */
module QueueTable {
  import opened Options
  import opened QueueSpec

  /** The key -1 of the tail, as a std::uint32_t. */
  const MAX_KEY: nat := 0xFFFF_FFFF

  type Key = k: int | 0 <= k <= MAX_KEY

  datatype Node = Node(key: Key, next: int, prev: int)

  /** What insert comes to; indexing the table with -1 is an outcome of its own. */
  datatype InsertResult = Rejected | Inserted | OutOfBounds

  // ----- how a sequence of processes lies in the table -----

  /** Entry `i` on the way from head `q` over the processes of `s` to the tail. */
  function At(q: nat, s: seq<int>, i: nat): int
    requires i <= |s| + 1
  {
    if i == 0 then q else if i <= |s| then s[i - 1] else q + 1
  }

  ghost predicate StepAt(buf: seq<Node>, q: nat, s: seq<int>, i: nat)
    requires i <= |s|
  {
    var a, b := At(q, s, i), At(q, s, i + 1);
    0 <= a < |buf| && 0 <= b < |buf| && buf[a].next == b && buf[b].prev == a
  }

  /** The forward links of queue `q` spell head, `s`, tail; the backward links spell the reverse. */
  ghost predicate Spells(buf: seq<Node>, nproc: nat, q: nat, s: seq<int>) {
    nproc <= q && q + 1 < |buf| &&
    (forall i :: 0 <= i < |s| ==> 0 <= s[i] < nproc) &&
    (forall i :: 0 <= i <= |s| ==> StepAt(buf, q, s, i)) &&
    buf[q].prev == -1 && buf[q + 1].next == -1 && buf[q + 1].key == MAX_KEY
  }

  ghost predicate IsQueueId(q: int, nproc: nat, nextqid: nat) {
    nproc <= q < nextqid && (q - nproc) % 2 == 0
  }

  ghost predicate WellFormed(buf: seq<Node>, nproc: nat, nextqid: nat, queues: Queues) {
    nproc <= nextqid <= |buf| && (nextqid - nproc) % 2 == 0 &&
    (forall q: nat {:trigger q in queues} :: q in queues <==> IsQueueId(q, nproc, nextqid)) &&
    (forall q :: q in queues ==> Spells(buf, nproc, q, queues[q])) &&
    OneQueueEach(queues)
  }

  function Keys(buf: seq<Node>): seq<Key> {
    seq(|buf|, i requires 0 <= i < |buf| => buf[i].key)
  }

  /** The processes of `s` with their keys. */
  function Items(buf: seq<Node>, s: seq<int>): seq<Item>
    requires forall i :: 0 <= i < |s| ==> 0 <= s[i] < |buf|
  {
    seq(|s|, i requires 0 <= i < |s| => Item(s[i], buf[s[i]].key))
  }

  /** The table determines the queue: one head spells one sequence only. */
  lemma {:induction false} SpellingAgrees(buf: seq<Node>, nproc: nat, q: nat, s: seq<int>, t: seq<int>, i: nat)
    requires Spells(buf, nproc, q, s) && Spells(buf, nproc, q, t) && i <= |s|
    ensures i <= |t| && s[..i] == t[..i]
  {
    if i > 0 {
      SpellingAgrees(buf, nproc, q, s, t, i - 1);
      assert StepAt(buf, q, s, i - 1) && StepAt(buf, q, t, i - 1);
      assert At(q, s, i - 1) == At(q, t, i - 1);
    }
  }

  lemma SpellingUnique(buf: seq<Node>, nproc: nat, q: nat, s: seq<int>, t: seq<int>)
    requires Spells(buf, nproc, q, s) && Spells(buf, nproc, q, t)
    ensures s == t
  {
    SpellingAgrees(buf, nproc, q, s, t, |s|);
    SpellingAgrees(buf, nproc, q, t, s, |t|);
  }

  /** The queues determine the links: tables with the same queues agree on every link of every entry in them. */
  lemma LinksDetermined(buf1: seq<Node>, buf2: seq<Node>, nproc: nat, q: nat, s: seq<int>, i: nat)
    requires Spells(buf1, nproc, q, s) && Spells(buf2, nproc, q, s) && i <= |s| + 1
    ensures var a := At(q, s, i);
            0 <= a < |buf1| && a < |buf2| && buf1[a].next == buf2[a].next && buf1[a].prev == buf2[a].prev
  {
    if i <= |s| {
      assert StepAt(buf1, q, s, i) && StepAt(buf2, q, s, i);
    }
    if i > 0 {
      assert StepAt(buf1, q, s, i - 1) && StepAt(buf2, q, s, i - 1);
    }
  }

  /** A queue none of whose entries is written keeps its spelling. */
  lemma UntouchedSpells(buf: seq<Node>, buf': seq<Node>, nproc: nat, q: nat, s: seq<int>)
    requires Spells(buf, nproc, q, s) && |buf'| == |buf|
    requires buf'[q] == buf[q] && buf'[q + 1] == buf[q + 1]
    requires forall i :: 0 <= i < |s| && 0 <= s[i] < |buf| ==> buf'[s[i]] == buf[s[i]]
    ensures Spells(buf', nproc, q, s)
  {
    forall i | 0 <= i <= |s|
      ensures StepAt(buf', q, s, i)
    {
      assert StepAt(buf, q, s, i);
    }
  }

  /** The table with `p` linked in before entry `i + 1` on the way through `q`, and only its neighbours changed. */
  ghost predicate Spliced(buf: seq<Node>, buf': seq<Node>, q: nat, s: seq<int>, p: int, i: nat)
    requires i <= |s|
  {
    var a, b := At(q, s, i), At(q, s, i + 1);
    |buf'| == |buf| && 0 <= a < |buf| && 0 <= b < |buf| && 0 <= p < |buf| &&
    buf'[p].next == b && buf'[p].prev == a &&
    buf'[a] == buf[a].(next := p) && buf'[b] == buf[b].(prev := p) &&
    forall x :: 0 <= x < |buf| && x != p && x != a && x != b ==> buf'[x] == buf[x]
  }

  ghost predicate Distinct(s: seq<int>) {
    forall i, j :: 0 <= i < j < |s| ==> s[i] != s[j]
  }

  lemma SplicedSpells(buf: seq<Node>, buf': seq<Node>, nproc: nat, q: nat, s: seq<int>, p: int, i: nat)
    requires Spells(buf, nproc, q, s) && Distinct(s) && p !in s && 0 <= p < nproc && i <= |s|
    requires Spliced(buf, buf', q, s, p, i)
    ensures Spells(buf', nproc, q, s[..i] + [p] + s[i..])
  {
    var s' := s[..i] + [p] + s[i..];
    assert StepAt(buf, q, s, i);
    forall j | 0 <= j <= |s'|
      ensures StepAt(buf', q, s', j)
    {
      SplicedStep(buf, buf', nproc, q, s, p, i, j);
    }
  }

  lemma SplicedStep(buf: seq<Node>, buf': seq<Node>, nproc: nat, q: nat, s: seq<int>, p: int, i: nat, j: nat)
    requires Spells(buf, nproc, q, s) && Distinct(s) && p !in s && 0 <= p < nproc && i <= |s| && j <= |s| + 1
    requires Spliced(buf, buf', q, s, p, i)
    ensures StepAt(buf', q, s[..i] + [p] + s[i..], j)
  {
    var s' := s[..i] + [p] + s[i..];
    assert StepAt(buf, q, s, i);
    if j < i {
      assert At(q, s', j) == At(q, s, j) && At(q, s', j + 1) == At(q, s, j + 1);
      assert StepAt(buf, q, s, j);
      WayDistinct(q, s, nproc, j, i);
      WayDistinct(q, s, nproc, j + 1, i + 1);
      WayDistinct(q, s, nproc, j, i + 1);
    } else if j == i {
      assert At(q, s', j) == At(q, s, i) && At(q, s', j + 1) == p;
    } else if j == i + 1 {
      assert At(q, s', j) == p && At(q, s', j + 1) == At(q, s, i + 1);
    } else {
      assert At(q, s', j) == At(q, s, j - 1) && At(q, s', j + 1) == At(q, s, j);
      assert StepAt(buf, q, s, j - 1);
      WayDistinct(q, s, nproc, i, j - 1);
      WayDistinct(q, s, nproc, i + 1, j);
      WayDistinct(q, s, nproc, i, j);
    }
  }

  lemma WayDistinct(q: nat, s: seq<int>, nproc: nat, i: nat, j: nat)
    requires Distinct(s) && nproc <= q && (forall k :: 0 <= k < |s| ==> 0 <= s[k] < nproc)
    requires i < j <= |s| + 1
    ensures At(q, s, i) != At(q, s, j)
  {
  }

  /** Splicing a process that waits nowhere into one queue leaves the others as they are. */
  lemma SpliceWellFormed(buf: seq<Node>, buf': seq<Node>, nproc: nat, nextqid: nat, queues: Queues,
                         q: nat, p: int, i: nat)
    requires WellFormed(buf, nproc, nextqid, queues) && q in queues && !Queued(queues, p) && 0 <= p < nproc
    requires i <= |queues[q]| && Spliced(buf, buf', q, queues[q], p, i)
    ensures WellFormed(buf', nproc, nextqid, queues[q := queues[q][..i] + [p] + queues[q][i..]])
  {
    var s := queues[q];
    var queues' := queues[q := s[..i] + [p] + s[i..]];
    InsertKeepsOneQueueEach(queues, q, p, i);
    assert Spells(buf, nproc, q, s) && Distinct(s);
    SplicedSpells(buf, buf', nproc, q, s, p, i);
    forall q' | q' in queues'
      ensures Spells(buf', nproc, q', queues'[q'])
    {
      if q' != q {
        assert Spells(buf, nproc, q', queues[q']) && IsQueueId(q', nproc, nextqid) && IsQueueId(q, nproc, nextqid);
        NotOnOtherWay(queues, nproc, nextqid, q, q', i);
        NotOnOtherWay(queues, nproc, nextqid, q, q', i + 1);
        forall j | 0 <= j < |queues[q']|
          ensures buf'[queues[q'][j]] == buf[queues[q'][j]]
        {
          assert queues[q'][j] in queues[q'];
        }
        UntouchedSpells(buf, buf', nproc, q', queues[q']);
      }
    }
  }

  /** Queues share no entry. */
  lemma NotOnOtherWay(queues: Queues, nproc: nat, nextqid: nat, q: nat, q': nat, i: nat)
    requires OneQueueEach(queues) && q in queues && q' in queues && q != q'
    requires IsQueueId(q, nproc, nextqid) && IsQueueId(q', nproc, nextqid)
    requires forall k :: 0 <= k < |queues[q]| ==> 0 <= queues[q][k] < nproc
    requires forall k :: 0 <= k < |queues[q']| ==> 0 <= queues[q'][k] < nproc
    requires i <= |queues[q]| + 1
    ensures var a := At(q, queues[q], i); a != q' && a != q' + 1 && a !in queues[q']
  {
  }

  /** The table with the first process of queue `q` unlinked, its own links -1, and only its neighbours changed. */
  ghost predicate Dropped(buf: seq<Node>, buf': seq<Node>, q: nat, s: seq<int>)
    requires s != []
  {
    var p, b := s[0], At(q, s, 2);
    |buf'| == |buf| && q < |buf| && 0 <= b < |buf| && 0 <= p < |buf| &&
    buf'[p].next == -1 && buf'[p].prev == -1 &&
    buf'[q] == buf[q].(next := b) && buf'[b] == buf[b].(prev := q) &&
    forall x :: 0 <= x < |buf| && x != p && x != q && x != b ==> buf'[x] == buf[x]
  }

  function Unlinked(buf: seq<Node>, q: nat, p: int): seq<Node>
    requires q < |buf| && 0 <= p < |buf| && 0 <= buf[p].next < |buf|
  {
    var b := buf[p].next;
    buf[q := buf[q].(next := b)][b := buf[b].(prev := q)][p := buf[p].(next := -1, prev := -1)]
  }

  /** What the table holds around the first process of a queue. */
  lemma FirstReady(buf: seq<Node>, nproc: nat, nextqid: nat, queues: Queues, q: nat)
    requires WellFormed(buf, nproc, nextqid, queues) && q in queues && queues[q] != []
    ensures var s := queues[q];
            q < |buf| && 0 <= s[0] < |buf| && buf[q].next == s[0] && buf[s[0]].next == At(q, s, 2) &&
            0 <= At(q, s, 2) < |buf| && q != s[0] && At(q, s, 2) != q && At(q, s, 2) != s[0]
  {
    var s := queues[q];
    assert Spells(buf, nproc, q, s);
    assert StepAt(buf, q, s, 0) && StepAt(buf, q, s, 1);
    WayDistinct(q, s, nproc, 1, 2);
  }

  lemma UnlinkedIsDropped(buf: seq<Node>, q: nat, s: seq<int>)
    requires s != [] && q < |buf| && 0 <= s[0] < |buf| && buf[s[0]].next == At(q, s, 2)
    requires 0 <= At(q, s, 2) < |buf| && q != s[0] && At(q, s, 2) != q && At(q, s, 2) != s[0]
    ensures Dropped(buf, Unlinked(buf, q, s[0]), q, s)
    ensures Keys(Unlinked(buf, q, s[0])) == Keys(buf)
  {
  }

  lemma DroppedSpells(buf: seq<Node>, buf': seq<Node>, nproc: nat, q: nat, s: seq<int>)
    requires Spells(buf, nproc, q, s) && Distinct(s) && s != []
    requires Dropped(buf, buf', q, s)
    ensures Spells(buf', nproc, q, s[1..])
  {
    assert StepAt(buf, q, s, 0) && StepAt(buf, q, s, 1);
    forall j | 0 <= j <= |s[1..]|
      ensures StepAt(buf', q, s[1..], j)
    {
      assert At(q, s[1..], j + 1) == At(q, s, j + 2);
      if j > 0 {
        assert At(q, s[1..], j) == At(q, s, j + 1);
        assert StepAt(buf, q, s, j + 1);
        WayDistinct(q, s, nproc, 0, j + 1);
        WayDistinct(q, s, nproc, 1, j + 1);
        WayDistinct(q, s, nproc, 2, j + 2);
        WayDistinct(q, s, nproc, 0, j + 2);
        WayDistinct(q, s, nproc, 1, j + 2);
      }
    }
    WayDistinct(q, s, nproc, 1, |s| + 1);
  }

  lemma DropWellFormed(buf: seq<Node>, buf': seq<Node>, nproc: nat, nextqid: nat, queues: Queues, q: nat)
    requires WellFormed(buf, nproc, nextqid, queues) && q in queues && queues[q] != []
    requires Dropped(buf, buf', q, queues[q])
    ensures WellFormed(buf', nproc, nextqid, queues[q := queues[q][1..]])
  {
    var s := queues[q];
    var queues' := queues[q := s[1..]];
    DropKeepsOneQueueEach(queues, q);
    assert Spells(buf, nproc, q, s) && Distinct(s);
    DroppedSpells(buf, buf', nproc, q, s);
    forall q' | q' in queues'
      ensures Spells(buf', nproc, q', queues'[q'])
    {
      if q' != q {
        assert Spells(buf, nproc, q', queues[q']) && IsQueueId(q', nproc, nextqid) && IsQueueId(q, nproc, nextqid);
        NotOnOtherWay(queues, nproc, nextqid, q, q', 0);
        NotOnOtherWay(queues, nproc, nextqid, q, q', 1);
        NotOnOtherWay(queues, nproc, nextqid, q, q', 2);
        forall j | 0 <= j < |queues[q']|
          ensures buf'[queues[q'][j]] == buf[queues[q'][j]]
        {
          assert queues[q'][j] in queues[q'];
        }
        UntouchedSpells(buf, buf', nproc, q', queues[q']);
      }
    }
  }

  lemma NewWellFormed(buf: seq<Node>, buf': seq<Node>, nproc: nat, nextqid: nat, queues: Queues)
    requires WellFormed(buf, nproc, nextqid, queues) && nextqid + 1 < |buf| == |buf'|
    requires buf'[nextqid].next == nextqid + 1 && buf'[nextqid].prev == -1
    requires buf'[nextqid + 1] == Node(MAX_KEY, -1, nextqid)
    requires forall x :: 0 <= x < |buf| && x != nextqid && x != nextqid + 1 ==> buf'[x] == buf[x]
    ensures WellFormed(buf', nproc, nextqid + 2, queues[nextqid := []])
  {
    var queues' := queues[nextqid := []];
    assert !IsQueueId(nextqid, nproc, nextqid);
    NewKeepsOneQueueEach(queues, nextqid);
    assert StepAt(buf', nextqid, [], 0);
    forall q | q in queues'
      ensures Spells(buf', nproc, q, queues'[q])
    {
      if q != nextqid {
        assert Spells(buf, nproc, q, queues[q]) && IsQueueId(q, nproc, nextqid);
        UntouchedSpells(buf, buf', nproc, q, queues[q]);
      }
    }
    forall q: nat
      ensures q in queues' <==> IsQueueId(q, nproc, nextqid + 2)
    {
      assert q in queues <==> IsQueueId(q, nproc, nextqid);
    }
  }

  // ----- insert as written -----

  /**
   Where the loop of lines 67-69 stops: the first process with a key below `key`. Past the last
   one it runs through the tail, whose key is the greatest.
   */
  function FirstBelow(items: seq<Item>, key: int): (i: nat)
    ensures i <= |items|
    ensures forall j :: 0 <= j < i ==> items[j].key >= key
    ensures i < |items| ==> items[i].key < key
  {
    if items == [] || items[0].key < key then 0 else 1 + FirstBelow(items[1..], key)
  }

  /** On a queue in priority order insert never has a place to stop at: it always leaves the table. */
  lemma InsertFailsWhenAscending(items: seq<Item>, key: int)
    requires Ascending(items)
    ensures !(0 < FirstBelow(items, key) < |items|)
  {
  }

  /** It stops inside exactly when the first key is not below `key` and some later one is. */
  lemma InsertStopsInsideIff(items: seq<Item>, key: int)
    ensures 0 < FirstBelow(items, key) < |items| <==>
            (items != [] && items[0].key >= key && exists j :: 0 <= j < |items| && items[j].key < key)
  {
  }

  class Table {
    const nproc: nat
    const buf: array<Node>
    var nextqid: nat

    ghost var queues: Queues

    ghost predicate Valid()
      reads this, buf
    {
      buf.Length < 0x1_0000 && WellFormed(buf[..], nproc, nextqid, queues)
    }

    /** The table as the runs of QueueSpec see it. */
    ghost function Abstract(): State
      reads this
    {
      State(queues, nextqid)
    }

    /** A table for `nproc` processes and `maxQueues` queues; the entries hold whatever `init` says. */
    constructor (nproc: nat, maxQueues: nat, init: Node)
      requires nproc + 2 * maxQueues < 0x1_0000
      ensures Valid() && fresh(buf) && this.nproc == nproc && buf.Length == nproc + 2 * maxQueues
      ensures nextqid == nproc && queues == map[]
    {
      this.nproc := nproc;
      buf := new Node[nproc + 2 * maxQueues](_ => init);
      nextqid := nproc;
      queues := map[];
    }

    function Head(q: nat): nat {
      q
    }

    function Tail(q: nat): nat {
      q + 1
    }

    predicate IsEmpty(q: nat)
      reads this, buf
      requires Valid() && q in queues
      ensures IsEmpty(q) <==> queues[q] == []
    {
      assert Spells(buf[..], nproc, q, queues[q]) && StepAt(buf[..], q, queues[q], 0);
      buf[Head(q)].next == Tail(q)
    }

    /** Lines 82-94. None is a write past the table, which ends the call: the code does not look for room. */
    method NewQueue() returns (r: Option<nat>)
      requires Valid()
      modifies this, buf
      ensures Valid() && (r.Some? <==> old(nextqid) + 1 < buf.Length)
      ensures r.None? ==> queues == old(queues) && nextqid == old(nextqid) && buf[..] == old(buf[..])
      ensures r.Some? ==> r.value == old(nextqid) && nextqid == old(nextqid) + 2
      ensures r.Some? ==> old(r.value !in queues) && queues == old(queues)[r.value := []]
      ensures r.Some? ==> Step(old(Abstract()), New) == Some(Abstract())
      ensures r.Some? ==> buf[r.value].next == r.value + 1 && buf[r.value].prev == -1
      ensures r.Some? ==> buf[r.value + 1] == Node(MAX_KEY, -1, r.value)
      ensures r.Some? ==> forall x :: 0 <= x < buf.Length && x != r.value && x != r.value + 1 ==> buf[x] == old(buf[x])
    {
      if nextqid + 1 >= buf.Length {
        return None;
      }
      ghost var before := buf[..];
      assert !IsQueueId(nextqid, nproc, nextqid);
      var q := nextqid;
      nextqid := nextqid + 2;
      buf[q] := buf[q].(next := Tail(q));
      buf[q] := buf[q].(prev := -1);
      buf[Tail(q)] := buf[Tail(q)].(next := -1);
      buf[Tail(q)] := buf[Tail(q)].(key := MAX_KEY);
      buf[Tail(q)] := buf[Tail(q)].(prev := Head(q));
      NewWellFormed(before, buf[..], nproc, q, queues);
      queues := queues[q := []];
      return Some(q);
    }

    /** Lines 27-38: appends a process that waits in no queue. */
    method PushQueue(q: nat, proc: int) returns (r: int)
      requires Valid() && q in queues && 0 <= proc < nproc && !Queued(queues, proc)
      modifies this`queues, buf
      ensures Valid() && r == proc
      ensures queues == old(queues)[q := old(queues[q]) + [proc]]
      ensures Step(old(Abstract()), Push(q, proc)) == Some(Abstract())
      ensures Spliced(old(buf[..]), buf[..], q, old(queues[q]), proc, |old(queues[q])|)
      ensures Keys(buf[..]) == old(Keys(buf[..]))
    {
      ghost var before, s := buf[..], queues[q];
      assert Spells(before, nproc, q, s) && StepAt(before, q, s, |s|);
      NotQueuedHere(proc, q);
      var oldlast := buf[Tail(q)].prev;
      buf[oldlast] := buf[oldlast].(next := proc);
      buf[proc] := buf[proc].(prev := oldlast);
      buf[proc] := buf[proc].(next := Tail(q));
      buf[Tail(q)] := buf[Tail(q)].(prev := proc);
      assert Spliced(before, buf[..], q, s, proc, |s|);
      SpliceWellFormed(before, buf[..], nproc, nextqid, queues, q, proc, |s|);
      assert s[..|s|] + [proc] + s[|s|..] == s + [proc];
      queues := queues[q := s + [proc]];
      return proc;
    }

    /** Lines 40-56: removes the first process, or answers -1. */
    method PopQueue(q: nat) returns (r: int)
      requires Valid() && q in queues
      modifies this`queues, buf
      ensures Valid() && Step(old(Abstract()), Pop(q)) == Some(Abstract())
      ensures old(queues[q]) == [] ==> r == -1 && queues == old(queues) && buf[..] == old(buf[..])
      ensures old(queues[q]) != [] ==> r == old(queues[q][0]) && queues == old(queues)[q := old(queues[q])[1..]]
      ensures old(queues[q]) != [] ==> Dropped(old(buf[..]), buf[..], q, old(queues[q]))
      ensures Keys(buf[..]) == old(Keys(buf[..]))
    {
      if IsEmpty(q) {
        return -1;
      }
      ghost var before, s := buf[..], queues[q];
      FirstReady(before, nproc, nextqid, queues, q);
      var evicted := buf[Head(q)].next;
      Unlink(q, evicted);
      UnlinkedIsDropped(before, q, s);
      DropWellFormed(before, buf[..], nproc, nextqid, queues, q);
      queues := queues[q := s[1..]];
      return evicted;
    }

    /** Lines 48-53. */
    method Unlink(q: nat, evicted: int)
      requires q < buf.Length && 0 <= evicted < buf.Length && 0 <= buf[evicted].next < buf.Length
      requires q != evicted && buf[evicted].next != q && buf[evicted].next != evicted
      modifies buf
      ensures buf[..] == Unlinked(old(buf[..]), q, evicted)
    {
      buf[Head(q)] := buf[Head(q)].(next := buf[evicted].next);
      buf[buf[evicted].next] := buf[buf[evicted].next].(prev := Head(q));
      buf[evicted] := buf[evicted].(next := -1);
      buf[evicted] := buf[evicted].(prev := -1);
    }

    /**
     Lines 58-80 as they stand. The entry is linked in only when the loop stops at a process;
     from the head, or from the tail, the table is indexed with -1. The key is not stored.
     */
    method Insert(proc: int, q: nat, key: Key) returns (r: InsertResult)
      requires Valid() && q in queues && proc < nproc && !Queued(queues, proc)
      modifies this`queues, buf
      ensures Valid() && InTable(old(queues[q]))
      ensures r == Rejected <==> proc < 0
      ensures Keys(buf[..]) == old(Keys(buf[..]))
      ensures var i := FirstBelow(old(Items(buf[..], queues[q])), key);
              (r == Inserted <==> proc >= 0 && 0 < i < |old(queues[q])|) &&
              (r == Inserted ==>
                 queues == old(queues)[q := old(queues[q])[..i - 1] + [proc] + old(queues[q])[i - 1..]])
      ensures r != Inserted ==> queues == old(queues) && buf[..] == old(buf[..])
    {
      if proc < 0 {
        return Rejected;
      }
      var curr := WalkWritten(q, key);
      if curr == -1 {
        return OutOfBounds;  // line 67 reads _buf[-1]
      }
      ghost var i := FirstBelow(Items(buf[..], queues[q]), key);
      assert i > 0 ==> StepAt(buf[..], q, queues[q], i - 1);
      if buf[curr].prev == -1 {
        return OutOfBounds;  // line 73 writes _buf[-1]
      }
      LinkIn(proc, q, curr, i - 1);
      return Inserted;
    }

    /** Lines 63-69: the entry before the first key below `key`, or -1 past the tail. */
    method WalkWritten(q: nat, key: Key) returns (curr: int)
      requires Valid() && q in queues
      ensures InTable(queues[q])
      ensures var i := FirstBelow(Items(buf[..], queues[q]), key);
              curr == if i == |queues[q]| then -1 else At(q, queues[q], i)
    {
      ghost var s := queues[q];
      assert Spells(buf[..], nproc, q, s);
      ghost var items := Items(buf[..], s);
      curr := Head(q);
      ghost var i := 0;
      while true
        invariant i <= |s| + 1 && curr == At(q, s, i)
        invariant i <= FirstBelow(items, key) || (i == |s| + 1 && FirstBelow(items, key) == |s|)
        decreases |s| + 1 - i
      {
        if i <= |s| {
          assert StepAt(buf[..], q, s, i);
        }
        if buf[curr].next == -1 {
          return -1;
        }
        if key > buf[buf[curr].next].key {
          assert i < |s| && items[i].key < key;
          return;
        }
        curr := buf[curr].next;
        i := i + 1;
      }
    }

    /** Lines 70-78: puts `proc` before `curr`, entry `i + 1` on the way through queue `q`. */
    method LinkIn(proc: int, q: nat, curr: int, ghost i: nat)
      requires Valid() && q in queues && 0 <= proc < nproc && !Queued(queues, proc)
      requires i <= |queues[q]| && curr == At(q, queues[q], i + 1)
      modifies this`queues, buf
      ensures Valid() && queues == old(queues)[q := old(queues[q])[..i] + [proc] + old(queues[q])[i..]]
      ensures Spliced(old(buf[..]), buf[..], q, old(queues[q]), proc, i)
      ensures Keys(buf[..]) == old(Keys(buf[..]))
    {
      ghost var before, s := buf[..], queues[q];
      assert Spells(before, nproc, q, s) && StepAt(before, q, s, i);
      NotQueuedHere(proc, q);
      var prev := buf[curr].prev;
      buf[prev] := buf[prev].(next := proc);
      buf[proc] := buf[proc].(prev := prev);
      buf[proc] := buf[proc].(next := curr);
      buf[curr] := buf[curr].(prev := proc);
      assert Spliced(before, buf[..], q, s, proc, i);
      SpliceWellFormed(before, buf[..], nproc, nextqid, queues, q, proc, i);
      queues := queues[q := s[..i] + [proc] + s[i..]];
    }

    /**
     Repair of insert after its own comments: the walk starts at the first process and passes the
     keys up to `key`, ending before the greatest key of the tail; the key is stored.
     */
    method InsertRepaired(proc: int, q: nat, key: Key) returns (r: InsertResult)
      requires Valid() && q in queues && proc < nproc && !Queued(queues, proc) && key < MAX_KEY
      modifies this`queues, buf
      ensures Valid() && InTable(old(queues[q])) && q in queues && InTable(queues[q])
      ensures r == if proc < 0 then Rejected else Inserted
      ensures proc < 0 ==> queues == old(queues) && buf[..] == old(buf[..])
      ensures proc >= 0 ==> Keys(buf[..]) == old(Keys(buf[..]))[proc := key]
      ensures proc >= 0 ==>
                var i := Place(old(Items(buf[..], queues[q])), key);
                queues == old(queues)[q := old(queues[q])[..i] + [proc] + old(queues[q])[i..]]
      ensures proc >= 0 ==>
                Items(buf[..], queues[q]) == QueueSpec.Insert(old(Items(buf[..], queues[q])), Item(proc, key))
    {
      InQueueInTable(q);
      if proc < 0 {
        return Rejected;
      }
      ghost var before, s := buf[..], queues[q];
      NotQueuedHere(proc, q);
      var curr := WalkRepaired(q, key);
      ghost var i := Place(Items(before, s), key);
      LinkIn(proc, q, curr, i);
      ghost var linked := buf[..];
      assert Keys(linked) == Keys(before);
      StoreKey(proc, key);
      KeyStoreItems(before, linked, buf[..], s, Item(proc, key), i);
      return Inserted;
    }

    method StoreKey(proc: int, key: Key)
      requires Valid() && 0 <= proc < nproc
      modifies buf
      ensures Valid() && buf[..] == old(buf[..])[proc := old(buf[proc]).(key := key)]
    {
      KeyStoreWellFormed(buf[..], nproc, nextqid, queues, proc, key);
      buf[proc] := buf[proc].(key := key);
    }

    /** The first entry whose key exceeds `key`: a process, or the tail. */
    method WalkRepaired(q: nat, key: Key) returns (curr: int)
      requires Valid() && q in queues && key < MAX_KEY
      ensures InTable(queues[q])
      ensures curr == At(q, queues[q], Place(Items(buf[..], queues[q]), key) + 1)
    {
      ghost var s := queues[q];
      assert Spells(buf[..], nproc, q, s) && StepAt(buf[..], q, s, 0);
      ghost var items := Items(buf[..], s);
      curr := buf[Head(q)].next;
      ghost var i := 0;
      while buf[curr].key <= key
        invariant i <= |s| && curr == At(q, s, i + 1) && 0 <= curr < buf.Length
        invariant i <= Place(items, key)
        decreases |s| - i
      {
        assert StepAt(buf[..], q, s, i + 1);
        curr := buf[curr].next;
        i := i + 1;
      }
      assert i < |s| ==> items[i].key > key;
    }

    /** Lines 96-114 for a queue of the table: the ids printed, head first. */
    method PrintQueue(q: nat) returns (printed: seq<int>)
      requires Valid() && q in queues
      ensures printed == [q] + queues[q] + [q + 1]
    {
      ghost var s := queues[q];
      assert Spells(buf[..], nproc, q, s);
      var curr: int := Head(q);
      printed := [];
      while buf[curr].next != -1
        invariant |printed| <= |s| + 1 && curr == At(q, s, |printed|)
        invariant printed == ([q] + s + [q + 1])[..|printed|]
        decreases |s| + 1 - |printed|
      {
        assert StepAt(buf[..], q, s, |printed|);
        printed := printed + [curr];
        curr := buf[curr].next;
      }
      assert |printed| <= |s| ==> StepAt(buf[..], q, s, |printed|);
      printed := printed + [curr];
    }

    /** The laws of runs apply to every valid table. */
    lemma AbstractOfValid()
      requires Valid()
      ensures Fresh(Abstract()) && OneQueueEach(Abstract().queues)
    {
      forall q | q in queues
        ensures q < nextqid
      {
        assert IsQueueId(q, nproc, nextqid);
      }
    }

    /** The links of a queue, entry by entry: head `q`, the processes in order, tail `q` + 1. */
    lemma LinksOfValid(q: nat, i: nat)
      requires Valid() && q in queues && i < |queues[q]|
      ensures InTable(queues[q]) && q + 1 < buf.Length
      ensures var s := queues[q];
              buf[q].next == s[0] && buf[q + 1].prev == s[|s| - 1] && buf[q].prev == buf[q + 1].next == -1 &&
              buf[s[i]].next == (if i + 1 == |s| then q + 1 else s[i + 1]) &&
              buf[s[i]].prev == if i == 0 then q else s[i - 1]
    {
      var s := queues[q];
      assert Spells(buf[..], nproc, q, s);
      assert StepAt(buf[..], q, s, 0) && StepAt(buf[..], q, s, |s|);
      assert StepAt(buf[..], q, s, i) && StepAt(buf[..], q, s, i + 1);
    }

    /** An empty queue: head and tail lead to each other. */
    lemma LinksOfEmpty(q: nat)
      requires Valid() && q in queues && queues[q] == []
      ensures q + 1 < buf.Length
      ensures buf[q].next == q + 1 && buf[q + 1].prev == q && buf[q].prev == buf[q + 1].next == -1
    {
      assert Spells(buf[..], nproc, q, []) && StepAt(buf[..], q, [], 0);
    }

    ghost predicate InTable(s: seq<int>) {
      forall i :: 0 <= i < |s| ==> 0 <= s[i] < buf.Length
    }

    lemma InQueueInTable(q: nat)
      requires Valid() && q in queues
      ensures InTable(queues[q])
    {
      assert Spells(buf[..], nproc, q, queues[q]);
    }

    lemma NotQueuedHere(proc: int, q: nat)
      requires q in queues && !Queued(queues, proc)
      ensures proc !in queues[q]
    {
    }
  }

  lemma KeyStoreWellFormed(buf: seq<Node>, nproc: nat, nextqid: nat, queues: Queues, p: int, key: Key)
    requires WellFormed(buf, nproc, nextqid, queues) && 0 <= p < nproc
    ensures WellFormed(buf[p := buf[p].(key := key)], nproc, nextqid, queues)
  {
    var buf' := buf[p := buf[p].(key := key)];
    forall q | q in queues
      ensures Spells(buf', nproc, q, queues[q])
    {
      assert Spells(buf, nproc, q, queues[q]);
      forall i | 0 <= i <= |queues[q]|
        ensures StepAt(buf', q, queues[q], i)
      {
        assert StepAt(buf, q, queues[q], i);
      }
    }
  }

  lemma KeyStoreItems(before: seq<Node>, linked: seq<Node>, after: seq<Node>, s: seq<int>, it: Item, i: nat)
    requires |before| == |linked| && Keys(linked) == Keys(before)
    requires 0 <= it.pid < |linked| && it.key >= 0 && it.key <= MAX_KEY
    requires after == linked[it.pid := linked[it.pid].(key := it.key)]
    requires it.pid !in s && i <= |s| && forall j :: 0 <= j < |s| ==> 0 <= s[j] < |before|
    ensures var s' := s[..i] + [it.pid] + s[i..];
            (forall j :: 0 <= j < |s'| ==> 0 <= s'[j] < |after|) &&
            Items(after, s') == Items(before, s)[..i] + [it] + Items(before, s)[i..]
    ensures Keys(after) == Keys(before)[it.pid := it.key]
  {
    forall x | 0 <= x < |before|
      ensures linked[x].key == before[x].key
    {
      assert Keys(linked)[x] == Keys(before)[x];
    }
  }
}
