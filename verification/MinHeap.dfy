/**
 * Timers of the event core: time values, events and the binary min-heap of
 * deadlines in which every event remembers its own position.
 */
module MinHeap {

  // ---------------------------------------------------------------- time values

  datatype Timeval = Timeval(sec: int, usec: int)

  predicate Normal(t: Timeval) {
    0 <= t.usec < 1000000
  }

  // A time value as a number of microseconds.
  function Micros(t: Timeval): int {
    t.sec * 1000000 + t.usec
  }

  // evutil_timercmp with '>'.
  predicate Later(a: Timeval, b: Timeval) {
    if a.sec == b.sec then a.usec > b.usec else a.sec > b.sec
  }

  function TimerAdd(a: Timeval, b: Timeval): Timeval {
    if a.usec + b.usec >= 1000000
    then Timeval(a.sec + b.sec + 1, a.usec + b.usec - 1000000)
    else Timeval(a.sec + b.sec, a.usec + b.usec)
  }

  function TimerSub(a: Timeval, b: Timeval): Timeval {
    if a.usec - b.usec < 0
    then Timeval(a.sec - b.sec - 1, a.usec - b.usec + 1000000)
    else Timeval(a.sec - b.sec, a.usec - b.usec)
  }

  // On normalised values the field-wise operations are arithmetic on microseconds.
  lemma TimeIsMicros(a: Timeval, b: Timeval)
    requires Normal(a) && Normal(b)
    ensures Later(a, b) <==> Micros(a) > Micros(b)
    ensures Later(a, b) <==> a.sec * 1000000 + a.usec > b.sec * 1000000 + b.usec
    ensures Normal(TimerAdd(a, b)) && Micros(TimerAdd(a, b)) == Micros(a) + Micros(b)
    ensures Normal(TimerSub(a, b)) && Micros(TimerSub(a, b)) == Micros(a) - Micros(b)
    ensures TimerSub(TimerAdd(a, b), b) == a
  {
  }

  // Moving both deadlines back by off turns x, which is not later than y, into the later
  // of the two: y is in the next second and borrows from it, while x carries more than a
  // whole second of microseconds over y and does not.
  predicate Overtakes(x: Timeval, y: Timeval, off: Timeval) {
    y.sec == x.sec + 1 && x.usec > y.usec + 1000000 && y.usec < off.usec <= x.usec
  }

  // Some offset does so.
  predicate Fragile(x: Timeval, y: Timeval) {
    y.sec == x.sec + 1 && x.usec > y.usec + 1000000 && x.usec >= 0 && y.usec < 999999
  }

  lemma ShiftKeepsOrder(x: Timeval, y: Timeval, off: Timeval)
    requires !Later(x, y)
    ensures Later(TimerSub(x, off), TimerSub(y, off)) <==> Overtakes(x, y, off)
    ensures Normal(x) && Normal(y) ==> !Overtakes(x, y, off)
  {
  }

  lemma FragileIsOvertaken(x: Timeval, y: Timeval)
    ensures Fragile(x, y) <==> exists off :: Normal(off) && Overtakes(x, y, off)
  {
    if Fragile(x, y) {
      var off := Timeval(0, if y.usec < 0 then 0 else y.usec + 1);
      assert Normal(off) && Overtakes(x, y, off);
    }
  }

  // ---------------------------------------------------------------- events

  // The queues an event can be on.
  datatype Queue = Timeout | Inserted | Active

  // The bits of ev_flags.
  datatype Flags = Flags(timeout: bool, inserted: bool, active: bool, internal: bool)

  function On(f: Flags, q: Queue): bool {
    match q
    case Timeout => f.timeout
    case Inserted => f.inserted
    case Active => f.active
  }

  function Set(f: Flags, q: Queue, b: bool): Flags {
    match q
    case Timeout => f.(timeout := b)
    case Inserted => f.(inserted := b)
    case Active => f.(active := b)
  }

  // The bits of ev_events and ev_res.
  datatype What = What(timeout: bool, read: bool, write: bool, signal: bool, persist: bool)

  const NOTHING := What(false, false, false, false, false)
  const EV_TIMEOUT := What(true, false, false, false, false)

  function Or(a: What, b: What): What {
    What(a.timeout || b.timeout, a.read || b.read, a.write || b.write, a.signal || b.signal, a.persist || b.persist)
  }

  // What the dispatcher will do for an active event: ev_res, ev_ncalls and ev_pncalls, the
  // number of the dispatch to whose count of the calls left it points, or 0 for null.
  datatype Call = Call(res: What, ncalls: nat, frame: nat)

  class Event {
    var deadline: Timeval
    var heapIdx: int
    var flags: Flags
    const events: What
    var call: Call
    var pri: int

    // event_set, for a base with the given number of priorities.
    constructor (events: What, priorities: nat, internal: bool)
      ensures this.events == events && flags == Flags(false, false, false, internal) && heapIdx == -1
      ensures call == Call(NOTHING, 0, 0) && pri == priorities / 2
    {
      this.events := events;
      flags := Flags(false, false, false, internal);
      heapIdx := -1;
      call := Call(NOTHING, 0, 0);
      pri := priorities / 2;
      deadline := Timeval(0, 0);
    }
  }

  // ---------------------------------------------------------------- the heap

  function Parent(i: nat): (p: nat)
    requires i > 0
    ensures p < i && (i == 2 * p + 1 || i == 2 * p + 2)
  {
    (i - 1) / 2
  }

  // Heap order of the keys d, except perhaps between the hole and its parent.
  ghost predicate RisingAt(d: seq<Timeval>, hole: nat) {
    (forall i {:trigger d[i]} :: 0 < i < |d| && i != hole ==> !Later(d[Parent(i)], d[i])) &&
    Bridged(d, hole)
  }

  // Heap order of the keys d, except perhaps around the hole.
  ghost predicate SinkingAt(d: seq<Timeval>, hole: nat) {
    (forall i {:trigger d[i]} :: 0 < i < |d| && i != hole && Parent(i) != hole ==> !Later(d[Parent(i)], d[i])) &&
    Bridged(d, hole)
  }

  // What lies above the hole is not later than what lies below it.
  ghost predicate Bridged(d: seq<Timeval>, hole: nat) {
    0 < hole < |d| ==> forall i {:trigger d[i]} :: hole < i < |d| && Parent(i) == hole ==> !Later(d[Parent(hole)], d[i])
  }

  ghost predicate HeapOrder(d: seq<Timeval>) {
    forall i {:trigger d[i]} :: 0 < i < |d| ==> !Later(d[Parent(i)], d[i])
  }

  function Swapped(d: seq<Timeval>, i: nat, j: nat): seq<Timeval>
    requires i < |d| && j < |d|
  {
    d[i := d[j]][j := d[i]]
  }

  lemma {:induction false} RiseStep(d: seq<Timeval>, hole: nat)
    requires 0 < hole < |d| && RisingAt(d, hole) && Later(d[Parent(hole)], d[hole])
    ensures RisingAt(Swapped(d, hole, Parent(hole)), Parent(hole))
  {
    var up := Parent(hole);
    var e := Swapped(d, hole, up);
    forall i | 0 < i < |e| && i != up
      ensures !Later(e[Parent(i)], e[i])
    {
      assert !Later(d[Parent(hole)], d[i]) || i == hole || Parent(i) != hole;
      assert i == hole || !Later(d[Parent(i)], d[i]);
    }
    if up > 0 {
      forall i | up < i < |e| && Parent(i) == up
        ensures !Later(e[Parent(up)], e[i])
      {
        assert !Later(d[Parent(up)], d[up]);
        assert i == hole || !Later(d[up], d[i]);
      }
    }
  }

  lemma {:induction false} RiseDone(d: seq<Timeval>, hole: nat)
    requires hole < |d| && RisingAt(d, hole)
    requires hole > 0 ==> !Later(d[Parent(hole)], d[hole])
    ensures HeapOrder(d)
  {
  }

  ghost predicate LeastChild(d: seq<Timeval>, hole: nat, child: nat)
    requires child < |d|
  {
    forall i {:trigger d[i]} :: hole < i < |d| && Parent(i) == hole ==> !Later(d[child], d[i])
  }

  lemma {:induction false} SinkStep(d: seq<Timeval>, hole: nat, child: nat)
    requires hole < child < |d| && Parent(child) == hole && SinkingAt(d, hole)
    requires LeastChild(d, hole, child)
    ensures SinkingAt(Swapped(d, hole, child), child)
    ensures Parent(child) == hole
  {
    var e := Swapped(d, hole, child);
    forall i | 0 < i < |e| && i != child && Parent(i) != child
      ensures !Later(e[Parent(i)], e[i])
    {
      assert i == hole || Parent(i) == hole || !Later(d[Parent(i)], d[i]);
      assert hole > 0 ==> !Later(d[Parent(hole)], d[child]);
    }
    forall i | child < i < |e| && Parent(i) == child
      ensures !Later(e[hole], e[i])
    {
      assert !Later(d[Parent(i)], d[i]);
    }
  }

  lemma {:induction false} SinkDone(d: seq<Timeval>, hole: nat)
    requires hole < |d| && SinkingAt(d, hole)
    requires 2 * (hole + 1) <= |d| ==> LeastChild(d, hole, hole)
    ensures RisingAt(d, hole)
  {
  }

  // Any key may be put in the place of one that is taken out.
  lemma {:induction false} SinkableAnywhere(d: seq<Timeval>, hole: nat, key: Timeval)
    requires hole < |d| && HeapOrder(d)
    ensures SinkingAt(d[hole := key], hole)
  {
    var e := d[hole := key];
    forall i | 0 < hole && hole < i < |d| && Parent(i) == hole
      ensures !Later(e[Parent(hole)], e[i])
    {
      assert !Later(d[Parent(hole)], d[hole]) && !Later(d[Parent(i)], d[i]);
    }
    forall i | 0 < i < |e| && i != hole && Parent(i) != hole
      ensures !Later(e[Parent(i)], e[i])
    {
      assert !Later(d[Parent(i)], d[i]);
    }
  }

  // The keys, each moved back by off.
  function Shifted(d: seq<Timeval>, off: Timeval): (e: seq<Timeval>) {
    seq(|d|, i requires 0 <= i < |d| => TimerSub(d[i], off))
  }

  // No child overtakes its parent when the keys move back by off.
  ghost predicate Steady(d: seq<Timeval>, off: Timeval) {
    forall i {:trigger d[i]} :: 0 < i < |d| ==> !Overtakes(d[Parent(i)], d[i], off)
  }

  ghost predicate Robust(d: seq<Timeval>) {
    forall i {:trigger d[i]} :: 0 < i < |d| ==> !Fragile(d[Parent(i)], d[i])
  }

  // One shift keeps a heap exactly if no key is overtaken by its parent ...
  lemma {:induction false} ShiftedOrder(d: seq<Timeval>, off: Timeval)
    requires HeapOrder(d)
    ensures HeapOrder(Shifted(d, off)) <==> Steady(d, off)
  {
    var e := Shifted(d, off);
    forall i | 0 < i < |d|
      ensures Later(e[Parent(i)], e[i]) <==> Overtakes(d[Parent(i)], d[i], off)
    {
      assert !Later(d[Parent(i)], d[i]);
      ShiftKeepsOrder(d[Parent(i)], d[i], off);
    }
    if Steady(d, off) {
      forall i | 0 < i < |e|
        ensures !Later(e[Parent(i)], e[i])
      {
        assert !Overtakes(d[Parent(i)], d[i], off);
      }
    } else {
      var i :| 0 < i < |d| && Overtakes(d[Parent(i)], d[i], off);
      assert Later(e[Parent(i)], e[i]);
    }
  }

  // ... and every shift does exactly if no parent and child are fragile.
  lemma {:induction false} EveryShiftOrder(d: seq<Timeval>)
    requires HeapOrder(d)
    ensures (forall off :: Normal(off) ==> HeapOrder(Shifted(d, off))) <==> Robust(d)
  {
    if Robust(d) {
      forall off | Normal(off)
        ensures HeapOrder(Shifted(d, off))
      {
        forall i | 0 < i < |d|
          ensures !Overtakes(d[Parent(i)], d[i], off)
        {
          assert !Fragile(d[Parent(i)], d[i]);
          FragileIsOvertaken(d[Parent(i)], d[i]);
        }
        ShiftedOrder(d, off);
      }
    } else {
      var i :| 0 < i < |d| && Fragile(d[Parent(i)], d[i]);
      FragileIsOvertaken(d[Parent(i)], d[i]);
      var off :| Normal(off) && Overtakes(d[Parent(i)], d[i], off);
      ShiftedOrder(d, off);
      assert !HeapOrder(Shifted(d, off));
    }
  }

  // A heap of two timers that one microsecond breaks.
  lemma {:induction false} ShiftBreaksHeap()
    ensures var d := [Timeval(0, 5000000), Timeval(1, 0)];
            HeapOrder(d) && !HeapOrder(Shifted(d, Timeval(0, 1)))
  {
    var d := [Timeval(0, 5000000), Timeval(1, 0)];
    ShiftedOrder(d, Timeval(0, 1));
    assert Overtakes(d[Parent(1)], d[1], Timeval(0, 1));
  }

  class Heap {
    var p: array<Event?>
    var n: nat
    ghost var contents: set<Event>

    // The first m slots other than the hole hold exactly the events of rest,
    // and each of those events knows its slot.
    ghost predicate Holed(m: nat, hole: nat, rest: set<Event>)
      reads this, p, rest`heapIdx
    {
      m <= p.Length &&
      (forall i :: 0 <= i < m && i != hole ==> p[i] != null && p[i] in rest && p[i].heapIdx == i) &&
      (forall x :: x in rest ==> 0 <= x.heapIdx < m && x.heapIdx != hole && p[x.heapIdx] == x)
    }

    // The deadlines d of the first m slots, with e standing for the hole.
    ghost predicate Keyed(d: seq<Timeval>, hole: nat, e: Event, rest: set<Event>)
      requires Holed(|d|, hole, rest)
      reads this, p, rest`heapIdx, rest`deadline, e`deadline
    {
      hole < |d| && d[hole] == e.deadline &&
      forall i {:trigger d[i]} {:trigger p[i]} :: 0 <= i < |d| && i != hole ==> d[i] == p[i].deadline
    }

    // The first m slots hold exactly the contents, each event knowing its slot.
    ghost predicate PackedTo(m: nat)
      reads this, p, contents`heapIdx
    {
      m <= p.Length &&
      (forall i :: 0 <= i < m ==> p[i] != null && p[i] in contents && p[i].heapIdx == i) &&
      (forall x {:trigger x.heapIdx} :: x in contents ==> 0 <= x.heapIdx < m && p[x.heapIdx] == x)
    }

    ghost predicate OrderedTo(m: nat)
      requires PackedTo(m)
      reads this, p, contents`heapIdx, contents`deadline
    {
      forall i :: 0 < i < m ==> !Later(p[Parent(i)].deadline, p[i].deadline)
    }

    ghost predicate Valid()
      reads this, p, contents`heapIdx, contents`deadline
    {
      PackedTo(n) && OrderedTo(n)
    }

    constructor ()
      ensures Valid() && contents == {} && fresh(p) && n == 0 && p.Length == 0
    {
      p := new Event?[0];
      n := 0;
      contents := {};
    }

    // min_heap_top: no event of the heap is due before the one returned.
    method Top() returns (e: Event?)
      requires Valid()
      ensures e == null <==> contents == {}
      ensures e != null ==> n > 0 && e == p[0] && e in contents
      ensures e != null ==> forall x :: x in contents ==> !Later(e.deadline, x.deadline)
    {
      if n == 0 {
        assert forall x :: x in contents ==> 0 <= x.heapIdx < 0;
        return null;
      }
      e := p[0];
      forall x | x in contents
        ensures !Later(e.deadline, x.deadline)
      {
        RootIsLeast(x.heapIdx);
      }
    }

    lemma {:induction false} RootIsLeast(i: nat)
      requires Valid() && i < n
      ensures !Later(p[0].deadline, p[i].deadline)
      decreases i
    {
      if i > 0 {
        RootIsLeast(Parent(i));
      }
    }

    // Back-indices make the contents and the slots the same in number.
    lemma SizeIsCount()
      requires PackedTo(n)
      ensures |contents| == n
    {
      SlotsAreMany(n);
      assert forall x :: x in contents ==> 0 <= x.heapIdx < n && p[x.heapIdx] == x;
      assert contents == set i | 0 <= i < n :: p[i];
    }

    lemma {:induction false} SlotsAreMany(k: nat)
      requires PackedTo(n) && k <= n
      ensures |set i | 0 <= i < k :: p[i]| == k
      decreases k
    {
      if k > 0 {
        SlotsAreMany(k - 1);
        var less := set i | 0 <= i < k - 1 :: p[i];
        assert (set i | 0 <= i < k :: p[i]) == less + {p[k - 1]};
        assert forall x :: x in less ==> x != null && x.heapIdx < k - 1;
      }
    }

    // realloc to a larger size.
    method Grown(a: nat) returns (q: array<Event?>)
      requires n <= p.Length && n <= a
      ensures fresh(q) && q.Length == a && q[..n] == p[..n]
    {
      q := new Event?[a];
      var i := 0;
      while i < n
        invariant 0 <= i <= n && q[..i] == p[..i]
      {
        q[i] := p[i];
        i := i + 1;
      }
    }

    // min_heap_reserve; memory says whether realloc succeeds.
    method Reserve(want: nat, memory: bool) returns (ok: bool)
      requires Valid()
      modifies this`p
      ensures Valid() && (p == old(p) || fresh(p)) && p[..n] == old(p[..n])
      ensures ok <==> want <= old(p.Length) || memory
      ensures if ok then want <= p.Length else p == old(p)
      ensures want <= old(p.Length) ==> p == old(p)
    {
      ok := true;
      if p.Length < want {
        var a := if p.Length > 0 then p.Length * 2 else 8;
        if a < want {
          a := want;
        }
        if !memory {
          return false;
        }
        var q := Grown(a);
        assert forall i {:trigger q[i]} {:trigger p[i]} :: 0 <= i < n ==> q[i] == q[..n][i] == p[..n][i] == p[i];
        p := q;
      }
    }

    // The event in slot from fills the hole, and its slot becomes the hole.
    method MoveTo(hole: nat, from: nat, ghost m: nat, ghost rest: set<Event>)
      requires hole < m && from < m && from != hole && Holed(m, hole, rest)
      modifies p, rest`heapIdx
      ensures Holed(m, from, rest)
      ensures p[..] == old(p[..])[hole := old(p[from])]
    {
      p[hole] := p[from];
      p[hole].heapIdx := hole;
    }

    method Place(hole: nat, e: Event, ghost m: nat, ghost rest: set<Event>)
      requires hole < m && Holed(m, hole, rest) && e !in rest
      modifies this`contents, p, e`heapIdx
      ensures contents == rest + {e} && PackedTo(m)
      ensures p[..] == old(p[..])[hole := e]
    {
      p[hole] := e;
      e.heapIdx := hole;
      contents := rest + {e};
    }

    // One turn of either loop: the event in slot from, whose key is d[from], fills the hole.
    method Turn(hole: nat, from: nat, e: Event, ghost d: seq<Timeval>, ghost rest: set<Event>)
      requires hole < |d| && from < |d| && from != hole && e !in rest
      requires Holed(|d|, hole, rest) && Keyed(d, hole, e, rest)
      modifies p, rest`heapIdx
      ensures Holed(|d|, from, rest) && Keyed(Swapped(d, hole, from), from, e, rest)
    {
      MoveTo(hole, from, |d|, rest);
      assert forall i {:trigger p[i]} :: 0 <= i < |d| && i != hole ==> p[i] == old(p[i]);
    }

    method Rise(hole: nat, e: Event, ghost d: seq<Timeval>, ghost rest: set<Event>)
      returns (up: nat, ghost d': seq<Timeval>)
      requires 0 < hole && e !in rest && Holed(|d|, hole, rest) && Keyed(d, hole, e, rest)
      requires RisingAt(d, hole) && Later(d[Parent(hole)], d[hole])
      modifies p, rest`heapIdx
      ensures up < hole && |d'| == |d| && Holed(|d|, up, rest) && Keyed(d', up, e, rest) && RisingAt(d', up)
    {
      up := (hole - 1) / 2;
      assert up == Parent(hole);
      RiseStep(d, hole);
      Turn(hole, up, e, d, rest);
      d' := Swapped(d, hole, up);
    }

    // min_heap_shift_up_
    method ShiftUp(start: nat, e: Event, ghost keys: seq<Timeval>, ghost rest: set<Event>)
      requires e !in rest && Holed(|keys|, start, rest) && Keyed(keys, start, e, rest) && RisingAt(keys, start)
      modifies this`contents, p, rest`heapIdx, e`heapIdx
      ensures contents == rest + {e} && PackedTo(|keys|) && OrderedTo(|keys|)
      ensures (start > 0 ==> !Later(keys[Parent(start)], e.deadline)) ==> e.heapIdx == start
    {
      var hole := start;
      ghost var d := keys;
      ghost var fits := start > 0 ==> !Later(keys[Parent(start)], e.deadline);
      while hole > 0 && Later(p[(hole - 1) / 2].deadline, e.deadline)
        invariant |d| == |keys| && Holed(|d|, hole, rest) && Keyed(d, hole, e, rest) && RisingAt(d, hole)
        invariant if hole == start then d == keys else !fits
        decreases hole
      {
        assert (hole - 1) / 2 == Parent(hole);
        hole, d := Rise(hole, e, d, rest);
      }
      RiseDone(d, hole);
      assert fits ==> hole == start;
      Settle(hole, e, d, rest);
    }

    method Sink(hole: nat, child: nat, e: Event, ghost d: seq<Timeval>, ghost rest: set<Event>)
      returns (ghost d': seq<Timeval>)
      requires hole < child < |d| && Parent(child) == hole && e !in rest && Holed(|d|, hole, rest) &&
        Keyed(d, hole, e, rest)
      requires SinkingAt(d, hole)
      requires LeastChild(d, hole, child)
      modifies p, rest`heapIdx
      ensures |d'| == |d| && Holed(|d|, child, rest) && Keyed(d', child, e, rest) && SinkingAt(d', child)
      ensures d'[hole] == d[child]
    {
      SinkStep(d, hole, child);
      Turn(hole, child, e, d, rest);
      d' := Swapped(d, hole, child);
    }

    // The child of the hole that is due first.
    method MinChild(hole: nat, e: Event, ghost d: seq<Timeval>, ghost rest: set<Event>) returns (child: nat)
      requires Holed(|d|, hole, rest) && Keyed(d, hole, e, rest) && n == |d| && 2 * (hole + 1) <= n
      ensures hole < child < n && Parent(child) == hole
      ensures p[child] != null && p[child].deadline == d[child] && LeastChild(d, hole, child)
    {
      child := 2 * (hole + 1);
      if child == n || Later(p[child].deadline, p[child - 1].deadline) {
        child := child - 1;
      }
    }

    // One turn of the loop of min_heap_shift_down_.
    method Descend(hole: nat, e: Event, ghost d: seq<Timeval>, ghost rest: set<Event>)
      returns (stop: bool, hole': nat, ghost d': seq<Timeval>)
      requires n == |d| && 2 * (hole + 1) <= n && e !in rest
      requires Holed(n, hole, rest) && Keyed(d, hole, e, rest) && SinkingAt(d, hole)
      modifies p, rest`heapIdx
      ensures |d'| == n && Holed(n, hole', rest) && Keyed(d', hole', e, rest) && SinkingAt(d', hole')
      ensures if stop then LeastChild(d', hole', hole') else hole < hole'
    {
      var child := MinChild(hole, e, d, rest);
      if !Later(e.deadline, p[child].deadline) {
        return true, hole, d;
      }
      d' := Sink(hole, child, e, d, rest);
      return false, child, d';
    }

    // min_heap_shift_down_; keys has one slot more than the heap when e is itself the
    // last element, already taken off.
    method ShiftDown(start: nat, e: Event, ghost keys: seq<Timeval>, ghost rest: set<Event>)
      requires e !in rest && Holed(|keys|, start, rest) && Keyed(keys, start, e, rest) && SinkingAt(keys, start)
      requires |keys| == n || (|keys| == n + 1 && start == n && HeapOrder(keys))
      modifies this`contents, p, rest`heapIdx, e`heapIdx
      ensures contents == rest + {e} && PackedTo(|keys|) && OrderedTo(|keys|)
      ensures |keys| == n + 1 ==> e.heapIdx == n
    {
      var hole := start;
      ghost var d := keys;
      while 2 * (hole + 1) <= n
        invariant |d| == |keys|
        invariant Holed(|d|, hole, rest) && Keyed(d, hole, e, rest) && SinkingAt(d, hole)
        invariant |keys| == n + 1 ==> hole == n && d == keys
        decreases n - hole
      {
        var stop;
        stop, hole, d := Descend(hole, e, d, rest);
        if stop {
          break;
        }
      }
      SinkDone(d, hole);
      ShiftUp(hole, e, d, rest);
    }

    method Settle(hole: nat, e: Event, ghost d: seq<Timeval>, ghost rest: set<Event>)
      requires e !in rest && Holed(|d|, hole, rest) && Keyed(d, hole, e, rest) && HeapOrder(d)
      modifies this`contents, p, e`heapIdx
      ensures contents == rest + {e} && PackedTo(|d|) && OrderedTo(|d|) && e.heapIdx == hole
    {
      Place(hole, e, |d|, rest);
      assert forall i {:trigger p[i]} :: 0 <= i < |d| ==> p[i].deadline == d[i];
    }

    // The deadlines of the first m slots.
    ghost function Keys(m: nat): (d: seq<Timeval>)
      requires m <= p.Length && forall i :: 0 <= i < m ==> p[i] != null && p[i] in contents
      reads this, p, contents`deadline
      ensures |d| == m && forall i {:trigger d[i]} {:trigger p[i]} :: 0 <= i < m ==> d[i] == p[i].deadline
    {
      if m == 0 then [] else Keys(m - 1) + [p[m - 1].deadline]
    }

    lemma KeysInOrder(m: nat)
      requires PackedTo(m)
      ensures OrderedTo(m) <==> HeapOrder(Keys(m))
    {
      if HeapOrder(Keys(m)) {
        forall i | 0 < i < m
          ensures !Later(p[Parent(i)].deadline, p[i].deadline)
        {
          assert !Later(Keys(m)[Parent(i)], Keys(m)[i]);
        }
      }
    }

    lemma OpenAtEnd(e: Event)
      requires Valid() && n < p.Length
      ensures Holed(n + 1, n, contents)
      ensures Keyed(Keys(n) + [e.deadline], n, e, contents) && RisingAt(Keys(n) + [e.deadline], n)
    {
      KeysInOrder(n);
      var d := Keys(n) + [e.deadline];
      forall i | 0 < i < |d| && i != n
        ensures !Later(d[Parent(i)], d[i])
      {
        assert !Later(Keys(n)[Parent(i)], Keys(n)[i]);
      }
    }

    lemma OpenLast(e: Event)
      requires PackedTo(n + 1) && OrderedTo(n + 1) && e in contents && e.heapIdx == n
      ensures Holed(n + 1, n, contents - {e}) && Keyed(Keys(n + 1), n, e, contents - {e})
      ensures HeapOrder(Keys(n + 1)) && SinkingAt(Keys(n + 1), n)
    {
      KeysInOrder(n + 1);
    }

    lemma OpenInside(e: Event, last: Event)
      requires PackedTo(n + 1) && OrderedTo(n + 1) && e in contents && e.heapIdx < n && p[n] == last
      ensures Holed(n, e.heapIdx, contents - {e, last})
      ensures Keyed(Keys(n)[e.heapIdx := last.deadline], e.heapIdx, last, contents - {e, last})
      ensures SinkingAt(Keys(n)[e.heapIdx := last.deadline], e.heapIdx)
    {
      OpenedSlots(e, last);
      PrefixInOrder();
      SinkableAnywhere(Keys(n), e.heapIdx, last.deadline);
    }

    lemma OpenedSlots(e: Event, last: Event)
      requires PackedTo(n + 1) && e in contents && e.heapIdx < n && p[n] == last
      ensures Holed(n, e.heapIdx, contents - {e, last})
    {
      assert last.heapIdx == n;
    }

    lemma PrefixInOrder()
      requires PackedTo(n + 1) && OrderedTo(n + 1)
      ensures HeapOrder(Keys(n))
    {
      var d := Keys(n);
      forall i | 0 < i < n
        ensures !Later(d[Parent(i)], d[i])
      {
        assert !Later(p[Parent(i)].deadline, p[i].deadline);
      }
    }

    method Append(e: Event)
      requires Valid() && e !in contents && n < p.Length
      modifies this`n, this`contents, p, contents`heapIdx, e`heapIdx
      ensures Valid() && contents == old(contents) + {e} && n == old(n) + 1
    {
      ghost var keys := Keys(n) + [e.deadline];
      OpenAtEnd(e);
      n := n + 1;
      ShiftUp(n - 1, e, keys, contents);
    }

    // min_heap_push
    method Push(e: Event, memory: bool) returns (ok: bool)
      requires Valid() && e !in contents
      modifies this`p, this`n, this`contents, p, contents`heapIdx, e`heapIdx
      ensures Valid() && (p == old(p) || fresh(p))
      ensures ok <==> old(n) < old(p.Length) || memory
      ensures if ok then contents == old(contents) + {e} && n == old(n) + 1
              else contents == old(contents) && n == old(n)
      ensures old(n) < old(p.Length) ==> p == old(p)
      ensures !ok ==> p == old(p) && unchanged(p) && e.heapIdx == old(e.heapIdx)
    {
      ok := Reserve(n + 1, memory);
      if ok {
        Append(e);
      }
    }

    // min_heap_erase, from any position
    method Erase(e: Event) returns (ok: bool)
      requires Valid() && (e.heapIdx == -1 || e in contents)
      modifies this`p, this`n, this`contents, p, contents`heapIdx
      ensures Valid() && p == old(p)
      ensures ok <==> old(e.heapIdx) != -1
      ensures ok ==> e in old(contents) && contents == old(contents) - {e} && n == old(n) - 1 && e.heapIdx == -1
      ensures !ok ==> contents == old(contents) && n == old(n) && unchanged(p) && unchanged(contents`heapIdx)
    {
      if e.heapIdx == -1 {
        return false;
      }
      n := n - 1;
      var last := p[n];
      if last == e {
        DropLast(e);
      } else {
        FillFromLast(e, last);
      }
      return true;
    }

    // The erased event is the last one: the loops leave it where it is.
    method DropLast(e: Event)
      requires PackedTo(n + 1) && OrderedTo(n + 1) && e in contents && e.heapIdx == n
      modifies this`contents, p, contents`heapIdx
      ensures Valid() && contents == old(contents) - {e} && e.heapIdx == -1
    {
      ghost var rest := contents - {e};
      OpenLast(e);
      ShiftDown(e.heapIdx, e, Keys(n + 1), rest);
      assert contents == old(contents);
      Detach(e);
    }

    method Detach(e: Event)
      requires PackedTo(n + 1) && OrderedTo(n + 1) && e in contents && e.heapIdx == n
      modifies this`contents, e`heapIdx
      ensures Valid() && contents == old(contents) - {e} && e.heapIdx == -1
    {
      e.heapIdx := -1;
      contents := contents - {e};
    }

    // The last event takes the place of the erased one.
    method FillFromLast(e: Event, last: Event)
      requires PackedTo(n + 1) && OrderedTo(n + 1) && e in contents && e.heapIdx < n && p[n] == last
      modifies this`contents, p, contents`heapIdx
      ensures Valid() && contents == old(contents) - {e} && e.heapIdx == -1
    {
      ghost var keys := Keys(n)[e.heapIdx := last.deadline];
      ghost var rest := contents - {e, last};
      OpenInside(e, last);
      ShiftDown(e.heapIdx, last, keys, rest);
      assert contents == old(contents) - {e};
      e.heapIdx := -1;
    }

    // min_heap_pop
    method Pop() returns (e: Event?)
      requires Valid()
      modifies this`p, this`n, this`contents, p, contents`heapIdx
      ensures Valid() && p == old(p)
      ensures e == null <==> old(contents) == {}
      ensures e == null ==> contents == {} && n == 0
      ensures e != null ==> e in old(contents) && contents == old(contents) - {e} && n == old(n) - 1 && e.heapIdx == -1
      ensures e != null ==> forall x :: x in old(contents) ==> !Later(e.deadline, x.deadline)
    {
      e := Top();
      if e == null {
        assert n == 0 by { SizeIsCount(); }
        return;
      }
      assert e.heapIdx == 0;
      var ok := Erase(e);
    }

    // The loop of timeout_correct: every deadline moves back by one offset, in place.
    method RewindAll(off: Timeval)
      requires PackedTo(n)
      modifies contents`deadline
      ensures PackedTo(n)
      ensures forall x :: x in contents ==> x.deadline == TimerSub(old(x.deadline), off)
    {
      var i := 0;
      while i < n
        invariant 0 <= i <= n && PackedTo(n)
        invariant forall x :: x in contents ==>
          x.deadline == if x.heapIdx < i then TimerSub(old(x.deadline), off) else old(x.deadline)
      {
        p[i].deadline := TimerSub(p[i].deadline, off);
        i := i + 1;
      }
    }

    method RewindKeys(off: Timeval)
      requires PackedTo(n)
      modifies contents`deadline
      ensures PackedTo(n) && Keys(n) == Shifted(old(Keys(n)), off)
      ensures forall x :: x in contents ==> x.deadline == TimerSub(old(x.deadline), off)
    {
      ghost var before := Keys(n);
      assert forall i {:trigger p[i]} {:trigger before[i]} :: 0 <= i < n ==> p[i].deadline == before[i];
      RewindAll(off);
      assert forall i {:trigger p[i]} {:trigger before[i]} :: 0 <= i < n ==> p[i].deadline == TimerSub(before[i], off);
    }

    lemma NormalIsSteady(off: Timeval)
      requires PackedTo(n) && forall x :: x in contents ==> Normal(x.deadline)
      ensures Steady(Keys(n), off)
    {
    }

    method Rewind(off: Timeval)
      requires Valid()
      modifies contents`deadline
      ensures PackedTo(n) && (Valid() <==> Steady(old(Keys(n)), off))
      ensures forall x :: x in contents ==> x.deadline == TimerSub(old(x.deadline), off)
      ensures (forall x :: x in contents ==> Normal(old(x.deadline))) ==> Valid()
    {
      KeysInOrder(n);
      ShiftedOrder(Keys(n), off);
      if forall x :: x in contents ==> Normal(x.deadline) {
        NormalIsSteady(off);
      }
      RewindKeys(off);
      KeysInOrder(n);
    }
  }
}
