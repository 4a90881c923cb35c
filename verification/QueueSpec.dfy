/** Queues of process ids as sequences: what runs of queue operations do, and what insert is for. */
module QueueSpec {

  import opened Options

  type Queues = map<nat, seq<int>>

  /** The system constraint of queuetable.hpp: a process is in one queue at most, and there once. */
  ghost predicate OneQueueEach(qs: Queues) {
    forall q1, i1, q2, i2 {:trigger qs[q1][i1], qs[q2][i2]} ::
      q1 in qs && q2 in qs && 0 <= i1 < |qs[q1]| && 0 <= i2 < |qs[q2]| && qs[q1][i1] == qs[q2][i2] ==>
      q1 == q2 && i1 == i2
  }

  ghost predicate Queued(qs: Queues, p: int) {
    exists q :: q in qs && p in qs[q]
  }

  /** A process that waits nowhere may join a queue at any place. */
  lemma InsertKeepsOneQueueEach(qs: Queues, q: nat, p: int, i: nat)
    requires OneQueueEach(qs) && !Queued(qs, p) && q in qs && i <= |qs[q]|
    ensures OneQueueEach(qs[q := qs[q][..i] + [p] + qs[q][i..]])
  {
    var s := qs[q];
    var qs' := qs[q := s[..i] + [p] + s[i..]];
    forall q1, i1, q2, i2 | q1 in qs' && q2 in qs' && 0 <= i1 < |qs'[q1]| && 0 <= i2 < |qs'[q2]| &&
                            qs'[q1][i1] == qs'[q2][i2]
      ensures q1 == q2 && i1 == i2
    {
      var j1 := if q1 == q && i1 > i then i1 - 1 else i1;
      var j2 := if q2 == q && i2 > i then i2 - 1 else i2;
      assert (q1 == q && i1 == i) || (j1 < |qs[q1]| && qs'[q1][i1] == qs[q1][j1] && qs[q1][j1] in qs[q1]);
      assert (q2 == q && i2 == i) || (j2 < |qs[q2]| && qs'[q2][i2] == qs[q2][j2] && qs[q2][j2] in qs[q2]);
    }
  }

  lemma DropKeepsOneQueueEach(qs: Queues, q: nat)
    requires OneQueueEach(qs) && q in qs && qs[q] != []
    ensures OneQueueEach(qs[q := qs[q][1..]])
    ensures !Queued(qs[q := qs[q][1..]], qs[q][0])
  {
    var s := qs[q];
    var qs' := qs[q := s[1..]];
    forall q1, i1, q2, i2 | q1 in qs' && q2 in qs' && 0 <= i1 < |qs'[q1]| && 0 <= i2 < |qs'[q2]| &&
                            qs'[q1][i1] == qs'[q2][i2]
      ensures q1 == q2 && i1 == i2
    {
      assert qs'[q1][i1] == qs[q1][if q1 == q then i1 + 1 else i1];
      assert qs'[q2][i2] == qs[q2][if q2 == q then i2 + 1 else i2];
    }
    forall q1 | q1 in qs'
      ensures s[0] !in qs'[q1]
    {
      forall i1 | 0 <= i1 < |qs'[q1]|
        ensures qs'[q1][i1] != s[0]
      {
        assert qs'[q1][i1] == qs[q1][if q1 == q then i1 + 1 else i1];
        assert s[0] == qs[q][0];
      }
    }
  }

  // ----- runs of newQueue, pushQueue and popQueue -----

  datatype Op = New | Push(q: nat, p: int) | Pop(q: nat)

  /** The queues, and the id the next queue will get. */
  datatype State = State(queues: Queues, nextqid: nat)

  /** None for what the table asks its callers not to do. */
  ghost function Step(st: State, op: Op): Option<State> {
    match op
    case New => Some(State(st.queues[st.nextqid := []], st.nextqid + 2))
    case Push(q, p) =>
      if q in st.queues && !Queued(st.queues, p)
      then Some(st.(queues := st.queues[q := st.queues[q] + [p]])) else None
    case Pop(q) =>
      if q !in st.queues then None
      else if st.queues[q] == [] then Some(st)
      else Some(st.(queues := st.queues[q := st.queues[q][1..]]))
  }

  ghost function Run(st: State, ops: seq<Op>): Option<State>
    decreases |ops|
  {
    if ops == [] then Some(st)
    else match Step(st, ops[0])
      case None => None
      case Some(st') => Run(st', ops[1..])
  }

  lemma RunOfOne(st: State, op: Op)
    ensures Run(st, [op]) == Step(st, op)
  {
    if Step(st, op).Some? {
      assert Run(Step(st, op).value, []) == Step(st, op);
    }
  }

  /** Runs compose. */
  lemma {:induction false} RunConcat(st: State, a: seq<Op>, b: seq<Op>)
    ensures Run(st, a + b) == match Run(st, a) case None => None case Some(st') => Run(st', b)
    decreases |a|
  {
    if a == [] {
      assert a + b == b;
    } else {
      assert (a + b)[1..] == a[1..] + b;
      if Step(st, a[0]).Some? {
        RunConcat(Step(st, a[0]).value, a[1..], b);
      }
    }
  }

  function PushedBy(op: Op, q: nat): seq<int> {
    if op.Push? && op.q == q then [op.p] else []
  }

  /** What popQueue returns for `q`; -1 from an empty queue is no pid. */
  function PoppedBy(st: State, op: Op, q: nat): seq<int> {
    if op.Pop? && op.q == q && q in st.queues && st.queues[q] != [] then [st.queues[q][0]] else []
  }

  /** The pids pushed on `q`, in order. */
  function Pushed(ops: seq<Op>, q: nat): seq<int> {
    if ops == [] then [] else PushedBy(ops[0], q) + Pushed(ops[1..], q)
  }

  /** The pids popQueue returned for `q`, in order. */
  ghost function Popped(st: State, ops: seq<Op>, q: nat): seq<int>
    requires Run(st, ops).Some?
    decreases |ops|
  {
    if ops == [] then [] else PoppedBy(st, ops[0], q) + Popped(Step(st, ops[0]).value, ops[1..], q)
  }

  ghost predicate Fresh(st: State) {
    forall q :: q in st.queues ==> q < st.nextqid
  }

  /** What queue `q` holds; nothing before it is made. */
  function Content(st: State, q: nat): seq<int> {
    if q in st.queues then st.queues[q] else []
  }

  /** One step, for every queue; and which queues there are. */
  lemma StepIsFifo(st: State, op: Op, q: nat)
    requires Step(st, op).Some? && Fresh(st)
    ensures var st' := Step(st, op).value;
            Fresh(st') && (q in st'.queues <==> q in st.queues || (op == New && q == st.nextqid)) &&
            st'.nextqid == (if op == New then st.nextqid + 2 else st.nextqid) &&
            Content(st, q) + PushedBy(op, q) == PoppedBy(st, op, q) + Content(st', q)
  {
  }

  function Made(ops: seq<Op>): nat {
    if ops == [] then 0 else (if ops[0] == New then 1 else 0) + Made(ops[1..])
  }

  /**
   First in, first out, for queues there before and for queues made on the way: what was there and
   what came in is what went out and what is left, in order. The run makes one queue for each New.
   */
  lemma {:induction false} RunIsFifo(st: State, ops: seq<Op>, q: nat)
    requires Run(st, ops).Some? && Fresh(st)
    ensures var end := Run(st, ops).value;
            Content(st, q) + Pushed(ops, q) == Popped(st, ops, q) + Content(end, q) &&
            end.nextqid == st.nextqid + 2 * Made(ops) &&
            (q in end.queues <==>
             q in st.queues || (st.nextqid <= q < end.nextqid && (q - st.nextqid) % 2 == 0))
    decreases |ops|
  {
    if ops != [] {
      var st' := Step(st, ops[0]).value;
      StepIsFifo(st, ops[0], q);
      RunIsFifo(st', ops[1..], q);
      var into, out := PushedBy(ops[0], q), PoppedBy(st, ops[0], q);
      Regroup(Content(st, q), into, Pushed(ops[1..], q));
      Regroup(out, Content(st', q), Pushed(ops[1..], q));
      Regroup(out, Popped(st', ops[1..], q), Content(Run(st, ops).value, q));
    }
  }

  lemma Regroup(a: seq<int>, b: seq<int>, c: seq<int>)
    ensures a + (b + c) == (a + b) + c
  {
  }

  /** From an empty queue on, or one not yet made, the pids popped are a prefix of the pids pushed. */
  lemma PoppedIsPrefixOfPushed(st: State, ops: seq<Op>, q: nat)
    requires Run(st, ops).Some? && Fresh(st) && Content(st, q) == []
    ensures Popped(st, ops, q) <= Pushed(ops, q)
  {
    RunIsFifo(st, ops, q);
    assert [] + Pushed(ops, q) == Pushed(ops, q);
  }

  lemma NewKeepsOneQueueEach(qs: Queues, q: nat)
    requires OneQueueEach(qs) && q !in qs
    ensures OneQueueEach(qs[q := []])
  {
    var qs' := qs[q := []];
    forall q1, i1, q2, i2 | q1 in qs' && q2 in qs' && 0 <= i1 < |qs'[q1]| && 0 <= i2 < |qs'[q2]| &&
                            qs'[q1][i1] == qs'[q2][i2]
      ensures q1 == q2 && i1 == i2
    {
      assert qs'[q1][i1] == qs[q1][i1] && qs'[q2][i2] == qs[q2][i2];
    }
  }

  lemma {:induction false} RunKeepsOneQueueEach(st: State, ops: seq<Op>)
    requires Run(st, ops).Some? && Fresh(st) && OneQueueEach(st.queues)
    ensures OneQueueEach(Run(st, ops).value.queues)
    decreases |ops|
  {
    if ops != [] {
      match ops[0] {
      case New =>
        NewKeepsOneQueueEach(st.queues, st.nextqid);
      case Push(q, p) =>
        var s := st.queues[q];
        InsertKeepsOneQueueEach(st.queues, q, p, |s|);
        assert s[..|s|] + [p] + s[|s|..] == s + [p];
      case Pop(q) =>
        if st.queues[q] != [] {
          DropKeepsOneQueueEach(st.queues, q);
        }
      }
      RunKeepsOneQueueEach(Step(st, ops[0]).value, ops[1..]);
    }
  }

  /** `n` rounds of popping the first process and pushing it back: the operations, given the queue. */
  function Rounds(s: seq<int>, q: nat, n: nat): seq<Op>
    requires s != []
    decreases n
  {
    if n == 0 then [] else [Pop(q), Push(q, s[0])] + Rounds(s[1..] + [s[0]], q, n - 1)
  }

  lemma OneRound(st: State, q: nat, rest: seq<Op>)
    requires OneQueueEach(st.queues) && q in st.queues && st.queues[q] != []
    ensures var s := st.queues[q];
            var st' := st.(queues := st.queues[q := s[1..] + [s[0]]]);
            var ops := [Pop(q), Push(q, s[0])] + rest;
            Run(st, ops) == Run(st', rest) &&
            (Run(st, ops).Some? ==> Popped(st, ops, q) == [s[0]] + Popped(st', rest, q)) &&
            OneQueueEach(st'.queues)
  {
    var s := st.queues[q];
    var mid := st.(queues := st.queues[q := s[1..]]);
    var st' := st.(queues := st.queues[q := s[1..] + [s[0]]]);
    var ops := [Pop(q), Push(q, s[0])] + rest;
    DropKeepsOneQueueEach(st.queues, q);
    InsertKeepsOneQueueEach(mid.queues, q, s[0], |s| - 1);
    assert s[1..][..|s| - 1] + [s[0]] + s[1..][|s| - 1..] == s[1..] + [s[0]];
    assert mid.queues[q := s[1..] + [s[0]]] == st'.queues;
    assert ops[1..] == [Push(q, s[0])] + rest && ops[1..][1..] == rest;
    assert Step(st, ops[0]) == Some(mid) && Step(mid, ops[1..][0]) == Some(st');
    assert Run(mid, ops[1..]) == Run(st', rest);
    if Run(st, ops).Some? {
      assert Popped(mid, ops[1..], q) == [] + Popped(st', rest, q);
    }
  }

  /** After `n` rounds on a queue of at least `n` processes its front part is behind and has been served. */
  lemma {:induction false} RoundsRotate(st: State, q: nat, n: nat, done: nat, s: seq<int>)
    requires OneQueueEach(st.queues) && q in st.queues && done + n <= |s| && s != []
    requires st.queues[q] == s[done..] + s[..done]
    ensures var ops := Rounds(st.queues[q], q, n);
            Run(st, ops) == Some(st.(queues := st.queues[q := s[done + n..] + s[..done + n]])) &&
            Popped(st, ops, q) == s[done..done + n]
    decreases n
  {
    if n == 0 {
      assert st.queues[q := st.queues[q]] == st.queues;
    } else {
      var cur := st.queues[q];
      assert cur[0] == s[done];
      assert cur[1..] + [cur[0]] == s[done + 1..] + s[..done + 1];
      var st' := st.(queues := st.queues[q := cur[1..] + [cur[0]]]);
      var rest := Rounds(cur[1..] + [cur[0]], q, n - 1);
      OneRound(st, q, rest);
      RoundsRotate(st', q, n - 1, done + 1, s);
      assert [s[done]] + s[done + 1..done + n] == s[done..done + n];
      assert st'.queues[q := s[done + n..] + s[..done + n]] == st.queues[q := s[done + n..] + s[..done + n]];
    }
  }

  /** Round robin: as many rounds as there are processes serve each once and restore the state. */
  lemma RoundRobin(st: State, q: nat)
    requires OneQueueEach(st.queues) && q in st.queues && st.queues[q] != []
    ensures var s := st.queues[q];
            Run(st, Rounds(s, q, |s|)) == Some(st) && Popped(st, Rounds(s, q, |s|), q) == s
  {
    var s := st.queues[q];
    assert s[0..] + s[..0] == s && s[|s|..] + s[..|s|] == s && s[0..|s|] == s;
    RoundsRotate(st, q, |s|, 0, s);
    assert st.queues[q := s] == st.queues;
  }

  // ----- priority order -----

  /** A queued process with the key its entry holds. */
  datatype Item = Item(pid: int, key: int)

  ghost predicate Ascending(items: seq<Item>) {
    forall i, j :: 0 <= i < j < |items| ==> items[i].key <= items[j].key
  }

  /** The place before the first greater key. */
  function Place(items: seq<Item>, key: int): (i: nat)
    ensures i <= |items|
    ensures forall j :: 0 <= j < i ==> items[j].key <= key
    ensures i < |items| ==> items[i].key > key
  {
    if items == [] || items[0].key > key then 0 else 1 + Place(items[1..], key)
  }

  function Insert(items: seq<Item>, it: Item): seq<Item> {
    var i := Place(items, it.key);
    items[..i] + [it] + items[i..]
  }

  function InsertAll(items: seq<Item>, arrivals: seq<Item>): seq<Item>
    decreases |arrivals|
  {
    if arrivals == [] then items else InsertAll(Insert(items, arrivals[0]), arrivals[1..])
  }

  /** The items with one key, in order. */
  function WithKey(items: seq<Item>, key: int): seq<Item> {
    if items == [] then [] else (if items[0].key == key then [items[0]] else []) + WithKey(items[1..], key)
  }

  lemma {:induction false} WithKeyConcat(a: seq<Item>, b: seq<Item>, key: int)
    ensures WithKey(a + b, key) == WithKey(a, key) + WithKey(b, key)
  {
    if a == [] {
      assert a + b == b;
    } else {
      assert (a + b)[1..] == a[1..] + b;
      WithKeyConcat(a[1..], b, key);
      var first := if a[0].key == key then [a[0]] else [];
      assert first + (WithKey(a[1..], key) + WithKey(b, key)) == (first + WithKey(a[1..], key)) + WithKey(b, key);
    }
  }

  lemma {:induction false} NoneWithKey(items: seq<Item>, key: int)
    requires forall i :: 0 <= i < |items| ==> items[i].key != key
    ensures WithKey(items, key) == []
  {
    if items != [] {
      NoneWithKey(items[1..], key);
    }
  }

  lemma InsertKeepsAscending(items: seq<Item>, it: Item)
    requires Ascending(items)
    ensures Ascending(Insert(items, it))
  {
    var i := Place(items, it.key);
    var items' := Insert(items, it);
    forall a, b | 0 <= a < b < |items'|
      ensures items'[a].key <= items'[b].key
    {
      assert a != i ==> items'[a] == items[if a < i then a else a - 1];
      assert b != i ==> items'[b] == items[if b < i then b else b - 1];
      assert b > i ==> items[i].key <= items[b - 1].key;
    }
  }

  lemma NoneAtPlaceOrLater(items: seq<Item>, key: int)
    requires Ascending(items)
    ensures WithKey(items[Place(items, key)..], key) == []
  {
    var i := Place(items, key);
    forall j | 0 <= j < |items[i..]|
      ensures items[i..][j].key != key
    {
      assert items[i..][j] == items[i + j];
    }
    NoneWithKey(items[i..], key);
  }

  /** One insertion keeps the order, and comes last among its equals. */
  lemma InsertOrdered(items: seq<Item>, it: Item, key: int)
    requires Ascending(items)
    ensures Ascending(Insert(items, it))
    ensures WithKey(Insert(items, it), key) == WithKey(items, key) + WithKey([it], key)
  {
    InsertKeepsAscending(items, it);
    NoneAtPlaceOrLater(items, it.key);
    var i := Place(items, it.key);
    var low, high := items[..i], items[i..];
    assert items == low + high;
    WithKeyConcat(low + [it], high, key);
    WithKeyConcat(low, [it], key);
    WithKeyConcat(low, high, key);
    assert WithKey([it], key) == if it.key == key then [it] + WithKey([], key) else [] + WithKey([], key);
  }

  /** Any number of insertions: ascending keys, and for every key the arrivals in arrival order. */
  lemma {:induction false} InsertAllSortsStably(items: seq<Item>, arrivals: seq<Item>, key: int)
    requires Ascending(items)
    ensures Ascending(InsertAll(items, arrivals))
    ensures WithKey(InsertAll(items, arrivals), key) == WithKey(items, key) + WithKey(arrivals, key)
    decreases |arrivals|
  {
    if arrivals != [] {
      InsertOrdered(items, arrivals[0], key);
      InsertAllSortsStably(Insert(items, arrivals[0]), arrivals[1..], key);
      assert [arrivals[0]] + arrivals[1..] == arrivals;
      WithKeyConcat([arrivals[0]], arrivals[1..], key);
    }
  }
}
